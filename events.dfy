/** The event-marker half of `parse_data` in acq2mat.py: which markers reach the
    MATLAB struct, how their attributes are normalised, and the six-column
    table they are collected into. */
module Events {

  /** An event attribute as the reader hands it over or as the table stores it:
      Python's None, the float NaN that stands in for a missing value, or a
      present value. No arithmetic or comparison is done on NaN here. */
  datatype Attr<V> = None | NaN | Val(value: V)

  /** One event marker of the decoded file, reduced to the six attributes the
      table collects. `channel` is whatever object the reader associates with
      the marker, and is only copied. */
  datatype EventMarker<C> = EventMarker(
    text: Attr<string>,
    sampleIndex: Attr<int>,
    typeCode: Attr<string>,
    typeName: Attr<string>,
    channelNumber: Attr<int>,
    channel: Attr<C>)

  /** The event table: the six parallel columns stored under `event_markers`
      (`label`, `sample_index`, `type_code`, `type`, `channel_number`,
      `channel`), one entry per kept marker. */
  datatype EventColumns<C> = EventColumns(
    labels: seq<Attr<string>>,
    sampleIndices: seq<Attr<int>>,
    typeCodes: seq<Attr<string>>,
    typeNames: seq<Attr<string>>,
    channelNumbers: seq<Attr<int>>,
    channels: seq<Attr<C>>)
  {
    /** No cell holds None */
    predicate HasNoNone() {
      && (forall i | 0 <= i < |labels| :: !labels[i].None?)
      && (forall i | 0 <= i < |sampleIndices| :: !sampleIndices[i].None?)
      && (forall i | 0 <= i < |typeCodes| :: !typeCodes[i].None?)
      && (forall i | 0 <= i < |typeNames| :: !typeNames[i].None?)
      && (forall i | 0 <= i < |channelNumbers| :: !channelNumbers[i].None?)
      && (forall i | 0 <= i < |channels| :: !channels[i].None?)
    }

    /** Every column has `n` entries */
    predicate HasRows(n: nat) {
      && |labels| == n && |sampleIndices| == n && |typeCodes| == n
      && |typeNames| == n && |channelNumbers| == n && |channels| == n
    }
  }

  /** The reader's type code for a marker with no real type; such markers are
      left out of the table. */
  const NoTypeCode: string := "nrto"

  predicate IsKept<C>(e: EventMarker<C>) {
    e.typeCode != Val(NoTypeCode)
  }

  /** `valid_events`: the markers whose type code is not "nrto", in file order */
  function ValidEvents<C>(evs: seq<EventMarker<C>>): seq<EventMarker<C>> {
    if evs == [] then []
    else
      var last := evs[|evs| - 1];
      ValidEvents(evs[..|evs| - 1]) + (if IsKept(last) then [last] else [])
  }

  /** The positions in `evs` of the markers that are kept, in increasing order.
      An independent description of the filter, by index. */
  function KeptPositions<C>(evs: seq<EventMarker<C>>): seq<nat> {
    if evs == [] then []
    else
      var n := |evs| - 1;
      KeptPositions(evs[..n]) + (if IsKept(evs[n]) then [n] else [])
  }

  /** The None-to-NaN substitution for one attribute */
  function Fill<V>(a: Attr<V>): Attr<V> {
    if a.None? then NaN else a
  }

  /** Every None attribute of the marker replaced by NaN */
  function FillNone<C>(e: EventMarker<C>): EventMarker<C> {
    EventMarker(Fill(e.text), Fill(e.sampleIndex), Fill(e.typeCode),
                Fill(e.typeName), Fill(e.channelNumber), Fill(e.channel))
  }

  /** `sample_index + 1` after the substitution: MATLAB counts samples from 1.
      NaN plus one is NaN. */
  function PlusOne(a: Attr<int>): Attr<int>
    requires !a.None?
  {
    if a.Val? then Val(a.value + 1) else NaN
  }

  /** One loop iteration: the already substituted marker appended to the columns */
  function AddRow<C>(t: EventColumns<C>, e: EventMarker<C>): EventColumns<C>
    requires !e.sampleIndex.None?
  {
    EventColumns(t.labels + [e.text], t.sampleIndices + [PlusOne(e.sampleIndex)],
                 t.typeCodes + [e.typeCode], t.typeNames + [e.typeName],
                 t.channelNumbers + [e.channelNumber], t.channels + [e.channel])
  }

  /** The table the loop builds from markers that already passed the filter */
  function Columns<C>(v: seq<EventMarker<C>>): (t: EventColumns<C>)
    ensures t.HasRows(|v|)
  {
    if v == [] then EventColumns([], [], [], [], [], [])
    else AddRow(Columns(v[..|v| - 1]), FillNone(v[|v| - 1]))
  }

  /** The event table of a decoded file */
  function EventTable<C>(evs: seq<EventMarker<C>>): EventColumns<C> {
    Columns(ValidEvents(evs))
  }

  // ---------------------------------------------------------------------------
  // The filter is exact and keeps order.

  /** `ps` lists, in increasing order, exactly the positions of `evs` whose
      marker is kept */
  predicate ArePositionsOfKept<C>(evs: seq<EventMarker<C>>, ps: seq<nat>) {
    && (forall i | 0 <= i < |ps| :: ps[i] < |evs| && IsKept(evs[ps[i]]))
    && (forall i, j | 0 <= i < j < |ps| :: ps[i] < ps[j])
    && (forall j | 0 <= j < |evs| && IsKept(evs[j]) :: j in ps)
  }

  lemma {:induction false} KeptPositionsPick<C>(evs: seq<EventMarker<C>>)
    ensures |ValidEvents(evs)| == |KeptPositions(evs)|
    ensures forall i | 0 <= i < |KeptPositions(evs)| ::
      KeptPositions(evs)[i] < |evs| && ValidEvents(evs)[i] == evs[KeptPositions(evs)[i]]
  {
    if evs != [] {
      var n := |evs| - 1;
      KeptPositionsPick(evs[..n]);
      var v0, ps0 := ValidEvents(evs[..n]), KeptPositions(evs[..n]);
      forall i | 0 <= i < |ps0|
        ensures ps0[i] < |evs| && v0[i] == evs[ps0[i]]
      {
        assert evs[..n][ps0[i]] == evs[ps0[i]];
      }
    }
  }

  lemma {:induction false} KeptPositionsArePositionsOfKept<C>(evs: seq<EventMarker<C>>)
    ensures ArePositionsOfKept(evs, KeptPositions(evs))
  {
    if evs != [] {
      var n := |evs| - 1;
      KeptPositionsArePositionsOfKept(evs[..n]);
      var ps0, ps := KeptPositions(evs[..n]), KeptPositions(evs);
      assert ps == ps0 + (if IsKept(evs[n]) then [n] else []);
      forall i | 0 <= i < |ps0|
        ensures ps[i] == ps0[i] && ps0[i] < n && IsKept(evs[ps0[i]])
      {
        assert evs[..n][ps0[i]] == evs[ps0[i]];
      }
      forall j | 0 <= j < n && IsKept(evs[j])
        ensures j in ps0
      {
        assert evs[..n][j] == evs[j];
      }
    }
  }

  /** The filter is exact and keeps order: the kept markers are the markers at
      the kept positions, and those are, in increasing order, exactly the
      positions whose marker's type code is not "nrto". */
  lemma ValidEventsExact<C>(evs: seq<EventMarker<C>>)
    ensures ArePositionsOfKept(evs, KeptPositions(evs))
    ensures |ValidEvents(evs)| == |KeptPositions(evs)|
    ensures forall i | 0 <= i < |KeptPositions(evs)| ::
      ValidEvents(evs)[i] == evs[KeptPositions(evs)[i]]
  {
    KeptPositionsPick(evs);
    KeptPositionsArePositionsOfKept(evs);
  }

  /** Filtering a concatenation filters each part: no marker moves past another. */
  lemma {:induction false} ValidEventsAppend<C>(a: seq<EventMarker<C>>, b: seq<EventMarker<C>>)
    ensures ValidEvents(a + b) == ValidEvents(a) + ValidEvents(b)
    decreases |b|
  {
    if b == [] {
      assert a + b == a;
    } else {
      var n := |b| - 1;
      assert (a + b)[..|a + b| - 1] == a + b[..n];
      ValidEventsAppend(a, b[..n]);
    }
  }

  // ---------------------------------------------------------------------------
  // What each row of the table holds.

  /** Row `i` of `t` holds marker `e`: every attribute copied with None
      replaced by NaN, and the sample index moved from 0-based to 1-based
      (NaN stays NaN) */
  ghost predicate IsRowOf<C>(t: EventColumns<C>, i: nat, e: EventMarker<C>) {
    && i < |t.labels| && i < |t.sampleIndices| && i < |t.typeCodes|
    && i < |t.typeNames| && i < |t.channelNumbers| && i < |t.channels|
    && t.labels[i] == (if e.text.None? then NaN else e.text)
    && t.sampleIndices[i] == (match e.sampleIndex
                            case Val(k) => Val(k + 1)
                            case _ => NaN)
    && t.typeCodes[i] == (if e.typeCode.None? then NaN else e.typeCode)
    && t.typeNames[i] == (if e.typeName.None? then NaN else e.typeName)
    && t.channelNumbers[i] == (if e.channelNumber.None? then NaN else e.channelNumber)
    && t.channels[i] == (if e.channel.None? then NaN else e.channel)
  }

  /** Row i of every column comes from the i-th marker. */
  lemma {:induction false} ColumnsRow<C>(v: seq<EventMarker<C>>, i: nat)
    requires i < |v|
    ensures IsRowOf(Columns(v), i, v[i])
  {
    var n := |v| - 1;
    if i < n {
      ColumnsRow(v[..n], i);
    }
  }

  /** The table of a decoded file: as many rows as kept markers, row i taken
      from the marker at the i-th kept position. */
  lemma EventTableRows<C>(evs: seq<EventMarker<C>>, i: nat)
    requires i < |KeptPositions(evs)|
    ensures var t, ps := EventTable(evs), KeptPositions(evs);
      && t.HasRows(|ps|)
      && ps[i] < |evs|
      && IsKept(evs[ps[i]])
      && IsRowOf(t, i, evs[ps[i]])
  {
    ValidEventsExact(evs);
    ColumnsRow(ValidEvents(evs), i);
  }

  /** No cell of the table is None, and no row carries the "nrto" type code. */
  lemma EventTableHasNoNone<C>(evs: seq<EventMarker<C>>)
    ensures EventTable(evs).HasNoNone()
    ensures forall i | 0 <= i < |EventTable(evs).typeCodes| :: EventTable(evs).typeCodes[i] != Val(NoTypeCode)
  {
    var t := EventTable(evs);
    ValidEventsExact(evs);
    forall i | 0 <= i < |t.labels|
      ensures && !t.labels[i].None? && !t.sampleIndices[i].None?
              && !t.typeCodes[i].None? && t.typeCodes[i] != Val(NoTypeCode)
              && !t.typeNames[i].None? && !t.channelNumbers[i].None? && !t.channels[i].None?
    {
      EventTableRows(evs, i);
    }
  }
}
