/** `parse_data` of acq2mat.py: the decoded AcqKnowledge file made into the
    struct that is saved to MATLAB, one field per channel plus the event table,
    and the wrapping of that struct into the single top-level variable `d`. */
module Acq2Mat {
  import opened Identifier
  import opened Events

  /** One channel of the decoded file. The samples are copied, never inspected. */
  datatype Channel<T> = Channel(name: string, data: seq<T>, samplesPerSecond: real, units: string)

  /** What the reader returns for one file, as far as `parse_data` looks at it */
  datatype Datafile<T, C> = Datafile(channels: seq<Channel<T>>, eventMarkers: seq<EventMarker<C>>)

  /** A field of the struct `parse_data` returns: a channel's {wave, Fs, unit}
      struct, or the event table */
  datatype Field<T, C> =
    | ChannelStruct(wave: seq<T>, fs: real, unit: string)
    | EventMarkers(table: EventColumns<C>)

  /** A MATLAB struct, as the dictionary handed to savemat */
  type Struct<T, C> = map<string, Field<T, C>>

  /** The field that holds the event table */
  const EventMarkersKey: string := "event_markers"

  /** The one top-level variable of the .mat file */
  const TopLevelName: string := "d"

  /** `clean(channel.name)`: the field name a channel is stored under */
  function FieldName<T>(ch: Channel<T>): string {
    Clean(ch.name)
  }

  /** The `{wave, Fs, unit}` struct of a channel */
  function ChannelStructOf<T, C>(ch: Channel<T>): Field<T, C> {
    ChannelStruct(ch.data, ch.samplesPerSecond, ch.units)
  }

  /** Every channel's struct stored under `key(channel)`, in file order, so a
      later channel replaces an earlier one with the same key */
  function StoreChannels<T, C>(chs: seq<Channel<T>>, key: Channel<T> -> string): Struct<T, C> {
    if chs == [] then map[]
    else
      var n := |chs| - 1;
      StoreChannels(chs[..n], key)[key(chs[n]) := ChannelStructOf(chs[n])]
  }

  /** The struct after the channel loop: every channel stored under its
      cleaned name */
  function ChannelFields<T, C>(chs: seq<Channel<T>>): Struct<T, C> {
    StoreChannels(chs, FieldName)
  }

  /** The struct `parse_data` returns: the channel fields, then the event table
      stored under `event_markers` over whatever was there */
  function Normalise<T, C>(data: Datafile<T, C>): Struct<T, C> {
    ChannelFields(data.channels)[EventMarkersKey := EventMarkers(EventTable(data.eventMarkers))]
  }

  /** `{'d': d}`: the struct wrapped into one MATLAB variable */
  function Wrap<T, C>(d: Struct<T, C>): map<string, Struct<T, C>> {
    map[TopLevelName := d]
  }

  /** `parse_data`: fills the struct channel by channel, then appends every kept
      marker, None attributes replaced by NaN and its sample index made 1-based,
      to the six columns of the event table. */
  method ParseData<T, C>(data: Datafile<T, C>) returns (d: Struct<T, C>)
    ensures d == Normalise(data)
  {
    d := map[];
    for n := 0 to |data.channels|
      invariant d == ChannelFields(data.channels[..n])
    {
      var channel := data.channels[n];
      ChannelFieldsStep<T, C>(data.channels, n);
      d := d[FieldName(channel) := ChannelStructOf(channel)];
    }
    assert data.channels[..|data.channels|] == data.channels;

    var validEvents := ValidEvents(data.eventMarkers);
    var labels: seq<Attr<string>> := [];
    var sampleIndices: seq<Attr<int>> := [];
    var typeCodes: seq<Attr<string>> := [];
    var typeNames: seq<Attr<string>> := [];
    var channelNumbers: seq<Attr<int>> := [];
    var channels: seq<Attr<C>> := [];
    for i := 0 to |validEvents|
      invariant EventColumns(labels, sampleIndices, typeCodes, typeNames, channelNumbers, channels)
             == Columns(validEvents[..i])
    {
      var event := FillNone(validEvents[i]);
      assert validEvents[..i + 1][..i] == validEvents[..i];
      labels := labels + [event.text];
      sampleIndices := sampleIndices + [PlusOne(event.sampleIndex)];
      typeCodes := typeCodes + [event.typeCode];
      typeNames := typeNames + [event.typeName];
      channelNumbers := channelNumbers + [event.channelNumber];
      channels := channels + [event.channel];
    }
    assert validEvents[..|validEvents|] == validEvents;

    d := d[EventMarkersKey := EventMarkers(EventColumns(labels, sampleIndices, typeCodes, typeNames, channelNumbers, channels))];
  }

  // ---------------------------------------------------------------------------
  // The channel fields.

  lemma ChannelFieldsStep<T, C>(chs: seq<Channel<T>>, n: nat)
    requires n < |chs|
    ensures ChannelFields<T, C>(chs[..n + 1]) == ChannelFields<T, C>(chs[..n])[FieldName(chs[n]) := ChannelStructOf(chs[n])]
  {
    var p := chs[..n + 1];
    assert p[..n] == chs[..n];
    assert p[n] == chs[n];
  }

  /** The fields after the channel loop are exactly the channels' keys: every
      channel's key is a field, and every field is the key of some channel. */
  lemma {:induction false} StoreChannelsKeys<T, C>(chs: seq<Channel<T>>, key: Channel<T> -> string)
    ensures forall k :: k in StoreChannels<T, C>(chs, key) <==> exists i | 0 <= i < |chs| :: key(chs[i]) == k
  {
    if chs != [] {
      var n := |chs| - 1;
      var init := chs[..n];
      StoreChannelsKeys<T, C>(init, key);
      var f0, f := StoreChannels<T, C>(init, key), StoreChannels<T, C>(chs, key);
      assert f == f0[key(chs[n]) := ChannelStructOf(chs[n])];
      forall k | k in f
        ensures exists i | 0 <= i < |chs| :: key(chs[i]) == k
      {
        if k != key(chs[n]) {
          var i :| 0 <= i < n && key(init[i]) == k;
          assert init[i] == chs[i];
        }
      }
      forall i | 0 <= i < n
        ensures key(chs[i]) in f
      {
        assert init[i] == chs[i];
      }
    }
  }

  /** A channel whose key no later channel shares is stored with its data,
      sample rate and units unchanged: on a shared key the later channel wins. */
  lemma {:induction false} StoreChannelsLastWins<T, C>(chs: seq<Channel<T>>, key: Channel<T> -> string, i: nat)
    requires i < |chs|
    requires forall j | i < j < |chs| :: key(chs[j]) != key(chs[i])
    ensures var f: Struct<T, C> := StoreChannels(chs, key);
      && key(chs[i]) in f
      && f[key(chs[i])] == ChannelStruct(chs[i].data, chs[i].samplesPerSecond, chs[i].units)
  {
    var n := |chs| - 1;
    if i < n {
      assert chs[..n][i] == chs[i];
      forall j | i < j < n
        ensures key(chs[..n][j]) != key(chs[..n][i])
      {
        assert chs[..n][j] == chs[j];
      }
      StoreChannelsLastWins<T, C>(chs[..n], key, i);
    }
  }

  /** Every field the channel loop writes holds a channel struct. */
  lemma {:induction false} StoreChannelsAreChannels<T, C>(chs: seq<Channel<T>>, key: Channel<T> -> string)
    ensures forall k | k in StoreChannels<T, C>(chs, key) :: StoreChannels<T, C>(chs, key)[k].ChannelStruct?
  {
    if chs != [] {
      StoreChannelsAreChannels<T, C>(chs[..|chs| - 1], key);
    }
  }

  // ---------------------------------------------------------------------------
  // The struct parse_data returns.

  /** The struct's fields are the cleaned channel names and `event_markers`;
      every field but `event_markers` is a MATLAB-legal name (or empty) and
      holds a channel struct, and `event_markers` holds the event table even
      when a channel's name cleaned to it. */
  lemma NormaliseFields<T, C>(data: Datafile<T, C>)
    ensures var d := Normalise(data);
      && (forall k :: k in d <==>
            k == EventMarkersKey || exists i | 0 <= i < |data.channels| :: FieldName(data.channels[i]) == k)
      && d[EventMarkersKey] == EventMarkers(EventTable(data.eventMarkers))
      && forall k | k in d && k != EventMarkersKey :: IsName(k) && d[k].ChannelStruct?
  {
    var chs := data.channels;
    StoreChannelsKeys<T, C>(chs, FieldName);
    StoreChannelsAreChannels<T, C>(chs, FieldName);
    forall i | 0 <= i < |chs| ensures IsName(FieldName(chs[i])) {
      CleanIsName(chs[i].name);
    }
  }

  /** A channel whose cleaned name is neither shared with a later channel nor
      `event_markers` reaches the saved struct with its data, sample rate and
      units unchanged. */
  lemma NormaliseChannel<T, C>(data: Datafile<T, C>, i: nat)
    requires i < |data.channels|
    requires FieldName(data.channels[i]) != EventMarkersKey
    requires forall j | i < j < |data.channels| :: FieldName(data.channels[j]) != FieldName(data.channels[i])
    ensures var ch, d := data.channels[i], Normalise(data);
      && FieldName(ch) in d
      && d[FieldName(ch)] == ChannelStruct(ch.data, ch.samplesPerSecond, ch.units)
  {
    StoreChannelsLastWins<T, C>(data.channels, FieldName, i);
  }

  /** A file with one channel whose label is already a field name, and no
      markers, is saved as `d` holding that channel's struct and an event
      table of six empty columns. */
  lemma OneChannelNoEvents<T, C>(name: string, wave: seq<T>, fs: real, unit: string)
    requires IsName(name) && name != EventMarkersKey
    ensures var data: Datafile<T, C> := Datafile([Channel(name, wave, fs, unit)], []);
      var out := Wrap(Normalise(data));
      && out.Keys == {TopLevelName}
      && out[TopLevelName].Keys == {name, EventMarkersKey}
      && out[TopLevelName][name] == ChannelStruct(wave, fs, unit)
      && out[TopLevelName][EventMarkersKey] == EventMarkers(EventColumns([], [], [], [], [], []))
  {
    CleanFixedPoints(name);
    var chs := [Channel(name, wave, fs, unit)];
    assert chs[..0] == [];
    assert FieldName(chs[0]) == name;
    assert StoreChannels<T, C>(chs[..0], FieldName) == map[];
    assert ChannelFields<T, C>(chs) == map[name := ChannelStruct(wave, fs, unit)];
    var none: seq<EventMarker<C>> := [];
    assert EventTable(none) == EventColumns([], [], [], [], [], []);
  }
}
