/** The channel-label sanitiser of acq2mat.py (`clean`): it turns the free-text
    label of a Biopac channel into a name MATLAB accepts as a struct field.

    The label goes through three steps, in this order:
      1. lower-case, then strip surrounding whitespace;
      2. delete every character outside [0-9a-zA-Z_];
      3. delete the leading run of characters that are not ASCII letters. */
module Identifier {

  /** [A-Z] */
  predicate IsUpper(c: char) { 'A' <= c <= 'Z' }

  /** [a-z] */
  predicate IsLower(c: char) { 'a' <= c <= 'z' }

  /** [a-zA-Z], the class the third step tests against */
  predicate IsLetter(c: char) { IsUpper(c) || IsLower(c) }

  /** [0-9] */
  predicate IsDigit(c: char) { '0' <= c <= '9' }

  /** [0-9a-zA-Z_], the class the second step keeps */
  predicate IsWordChar(c: char) { IsLetter(c) || IsDigit(c) || c == '_' }

  /** What a cleaned name is made of: lower-case ASCII letters, digits, underscore */
  predicate IsNameChar(c: char) { IsLower(c) || IsDigit(c) || c == '_' }

  /** Python's str.isspace(), the set str.strip() removes when given no argument */
  predicate IsSpace(c: char) {
    || c == ' '
    || '\U{0009}' <= c <= '\U{000D}'
    || '\U{001C}' <= c <= '\U{001F}'
    || c == '\U{0085}' || c == '\U{00A0}' || c == '\U{1680}'
    || '\U{2000}' <= c <= '\U{200A}'
    || c == '\U{2028}' || c == '\U{2029}' || c == '\U{202F}'
    || c == '\U{205F}' || c == '\U{3000}'
  }

  predicate NoUpper(s: string) {
    forall i | 0 <= i < |s| :: !IsUpper(s[i])
  }

  /** No letter among the first `k` characters of `s` */
  predicate NoLetterBefore(s: string, k: nat)
    requires k <= |s|
  {
    forall i | 0 <= i < k :: !IsLetter(s[i])
  }

  /** A name `clean` can return: only name characters, and empty or starting with a letter */
  predicate IsName(s: string) {
    && (forall i | 0 <= i < |s| :: IsNameChar(s[i]))
    && (s == [] || IsLetter(s[0]))
  }

  /** `a` can be obtained from `b` by deleting characters */
  predicate IsSubsequence(a: string, b: string)
    decreases |b|
  {
    || a == []
    || (b != [] && ((a[0] == b[0] && IsSubsequence(a[1..], b[1..])) || IsSubsequence(a, b[1..])))
  }

  /** str.lower() on one character. ASCII capitals map to their small letters;
      the KELVIN SIGN and the capital I with a dot above are the two non-ASCII
      characters whose lower case holds an ASCII letter. Any other character is
      kept as it is. An ASCII character that is not a capital is its own lower
      case. For any other non-ASCII character, neither the character nor its
      Python lower case holds a character of [0-9a-zA-Z_], so the second step
      deletes either one entirely. */
  function LowerChar(c: char): seq<char> {
    if IsUpper(c) then [(c as int - 'A' as int + 'a' as int) as char]
    else if c == '\U{212A}' then ['k']
    else if c == '\U{0130}' then ['i', '\U{0307}']
    else [c]
  }

  /** str.lower() */
  function Lower(s: string): string {
    if s == [] then [] else LowerChar(s[0]) + Lower(s[1..])
  }

  /** str.lstrip() */
  function TrimStart(s: string): string {
    if s != [] && IsSpace(s[0]) then TrimStart(s[1..]) else s
  }

  /** str.rstrip() */
  function TrimEnd(s: string): string {
    if s != [] && IsSpace(s[|s| - 1]) then TrimEnd(s[..|s| - 1]) else s
  }

  /** str.strip() */
  function Strip(s: string): string {
    TrimEnd(TrimStart(s))
  }

  /** re.sub('[^0-9a-zA-Z_]', '', s) */
  function KeepWordChars(s: string): string {
    if s == [] then []
    else (if IsWordChar(s[0]) then [s[0]] else []) + KeepWordChars(s[1..])
  }

  /** re.sub('^[^a-zA-Z]+', '', s) */
  function DropLeadingNonLetters(s: string): string {
    if s == [] || IsLetter(s[0]) then s else DropLeadingNonLetters(s[1..])
  }

  /** `clean`: a channel label made into a MATLAB field name */
  function Clean(s: string): string {
    DropLeadingNonLetters(KeepWordChars(Strip(Lower(s))))
  }

  // ---------------------------------------------------------------------------
  // The three steps one at a time.

  /** After the first step no ASCII capital is left. */
  lemma {:induction false} LowerHasNoUpper(s: string)
    ensures NoUpper(Lower(s))
  {
    if s != [] {
      LowerHasNoUpper(s[1..]);
      var head, tail := LowerChar(s[0]), Lower(s[1..]);
      assert NoUpper(head);
      assert Lower(s) == head + tail;
      forall i | 0 <= i < |head + tail|
        ensures !IsUpper((head + tail)[i])
      {
        if i >= |head| {
          assert (head + tail)[i] == tail[i - |head|];
        }
      }
    }
  }

  /** On an ASCII label the first step maps each capital to its own small
      letter and keeps every other character, position by position. */
  lemma {:induction false} LowerOfAscii(s: string)
    requires forall i | 0 <= i < |s| :: s[i] < '\U{0080}'
    ensures |Lower(s)| == |s|
    ensures forall i | 0 <= i < |s| ::
      Lower(s)[i] == if IsUpper(s[i]) then (s[i] as int + 32) as char else s[i]
  {
    if s != [] {
      LowerOfAscii(s[1..]);
      var tail := Lower(s[1..]);
      assert Lower(s) == LowerChar(s[0]) + tail;
      assert |LowerChar(s[0])| == 1;
      forall i | 1 <= i < |s|
        ensures Lower(s)[i] == tail[i - 1] && s[1..][i - 1] == s[i]
      {
      }
    }
  }

  /** The second step keeps only word characters, and brings in no capital. */
  lemma {:induction false} KeepWordCharsKeeps(s: string)
    ensures var r := KeepWordChars(s);
      && |r| <= |s|
      && (forall i | 0 <= i < |r| :: IsWordChar(r[i]))
      && (NoUpper(s) ==> NoUpper(r))
  {
    if s != [] {
      KeepWordCharsKeeps(s[1..]);
      var r, rest := KeepWordChars(s), KeepWordChars(s[1..]);
      if IsWordChar(s[0]) {
        assert r == [s[0]] + rest;
        forall i | 1 <= i < |r|
          ensures r[i] == rest[i - 1]
        {
        }
        if NoUpper(s) {
          assert !IsUpper(s[0]);
          assert NoUpper(s[1..]) by {
            forall i | 0 <= i < |s| - 1 ensures s[1..][i] == s[i + 1] { }
          }
        }
      } else {
        assert r == rest;
        if NoUpper(s) {
          assert NoUpper(s[1..]) by {
            forall i | 0 <= i < |s| - 1 ensures s[1..][i] == s[i + 1] { }
          }
        }
      }
    }
  }

  /** The third step returns a suffix of its input, empty or starting with a
      letter, and what it cuts off holds no letter. */
  lemma {:induction false} DropLeadingNonLettersSuffix(s: string)
    ensures var r := DropLeadingNonLetters(s);
      && |r| <= |s| && r == s[|s| - |r|..]
      && (r == [] || IsLetter(r[0]))
      && NoLetterBefore(s, |s| - |r|)
  {
    if s != [] && !IsLetter(s[0]) {
      var r := DropLeadingNonLetters(s[1..]);
      DropLeadingNonLettersSuffix(s[1..]);
      assert s[1..][|s| - 1 - |r|..] == s[|s| - |r|..];
      forall i | 1 <= i < |s| - |r|
        ensures !IsLetter(s[i])
      {
        assert s[1..][i - 1] == s[i];
      }
    }
  }

  // ---------------------------------------------------------------------------
  // The second step distributes over concatenation and ignores whitespace.

  lemma {:induction false} KeepWordCharsAppend(a: string, b: string)
    ensures KeepWordChars(a + b) == KeepWordChars(a) + KeepWordChars(b)
  {
    if a == [] {
      assert a + b == b;
    } else {
      var ab := a + b;
      assert ab[0] == a[0] && ab[1..] == a[1..] + b;
      KeepWordCharsAppend(a[1..], b);
      var head := if IsWordChar(a[0]) then [a[0]] else [];
      calc {
        KeepWordChars(ab);
        head + KeepWordChars(a[1..] + b);
        head + (KeepWordChars(a[1..]) + KeepWordChars(b));
        (head + KeepWordChars(a[1..])) + KeepWordChars(b);
        KeepWordChars(a) + KeepWordChars(b);
      }
    }
  }

  lemma {:induction false} KeepWordCharsTrimStart(s: string)
    ensures KeepWordChars(TrimStart(s)) == KeepWordChars(s)
  {
    if s != [] && IsSpace(s[0]) {
      assert TrimStart(s) == TrimStart(s[1..]);
      assert !IsWordChar(s[0]);
      assert KeepWordChars(s) == KeepWordChars(s[1..]);
      KeepWordCharsTrimStart(s[1..]);
    }
  }

  lemma {:induction false} KeepWordCharsTrimEnd(s: string)
    ensures KeepWordChars(TrimEnd(s)) == KeepWordChars(s)
  {
    if s != [] && IsSpace(s[|s| - 1]) {
      var init := s[..|s| - 1];
      assert s == init + [s[|s| - 1]];
      KeepWordCharsAppend(init, [s[|s| - 1]]);
      KeepWordCharsTrimEnd(init);
    }
  }

  /** The strip() of the first step has no effect on the result: the second
      step deletes whitespace wherever it stands. */
  lemma StripHasNoEffect(s: string)
    ensures Clean(s) == DropLeadingNonLetters(KeepWordChars(Lower(s)))
  {
    KeepWordCharsTrimEnd(TrimStart(Lower(s)));
    KeepWordCharsTrimStart(Lower(s));
  }

  // ---------------------------------------------------------------------------
  // What a cleaned name looks like.

  lemma DroppedWordCharsAreName(w: string)
    requires NoUpper(w)
    requires forall i | 0 <= i < |w| :: IsWordChar(w[i])
    ensures IsName(DropLeadingNonLetters(w))
  {
    var r := DropLeadingNonLetters(w);
    DropLeadingNonLettersSuffix(w);
    forall i | 0 <= i < |r|
      ensures IsNameChar(r[i])
    {
      assert r[i] == w[|w| - |r| + i];
    }
  }

  /** The result holds only lower-case ASCII letters, digits and underscores,
      and is either empty or starts with a letter. */
  lemma CleanIsName(s: string)
    ensures IsName(Clean(s))
  {
    StripHasNoEffect(s);
    LowerHasNoUpper(s);
    KeepWordCharsKeeps(Lower(s));
    DroppedWordCharsAreName(KeepWordChars(Lower(s)));
  }

  /** The only suffix of `w` that is empty or starts with a letter, and leaves
      no letter before it, is the one the third step returns. */
  lemma DropLeadingNonLettersUnique(w: string, q: string)
    requires |q| <= |w| && w[|w| - |q|..] == q
    requires NoLetterBefore(w, |w| - |q|)
    requires q == [] || IsLetter(q[0])
    ensures q == DropLeadingNonLetters(w)
  {
    DropLeadingNonLettersSuffix(w);
  }

  /** The result is the suffix of the lower-cased label's word characters
      that starts at their first letter; no other string is. */
  lemma CleanIsSuffixFromFirstLetter(s: string, q: string)
    ensures var w := KeepWordChars(Lower(s));
      q == Clean(s) <==>
        && |q| <= |w| && w[|w| - |q|..] == q
        && NoLetterBefore(w, |w| - |q|)
        && (q == [] || IsLetter(q[0]))
  {
    StripHasNoEffect(s);
    var w := KeepWordChars(Lower(s));
    DropLeadingNonLettersSuffix(w);
    if |q| <= |w| && w[|w| - |q|..] == q && NoLetterBefore(w, |w| - |q|) && (q == [] || IsLetter(q[0])) {
      DropLeadingNonLettersUnique(w, q);
    }
  }

  // ---------------------------------------------------------------------------
  // The result is a subsequence of the lower-cased label, so never longer.

  lemma {:induction false} SubsequenceReflexive(a: string)
    ensures IsSubsequence(a, a)
  {
    if a != [] {
      SubsequenceReflexive(a[1..]);
    }
  }

  lemma {:induction false} SubsequenceOfSuffix(a: string, k: nat)
    requires k <= |a|
    ensures IsSubsequence(a[k..], a)
    decreases k
  {
    if k == 0 {
      SubsequenceReflexive(a);
    } else {
      assert a[1..][k - 1..] == a[k..];
      SubsequenceOfSuffix(a[1..], k - 1);
    }
  }

  lemma {:induction false} SubsequenceTransitive(a: string, b: string, c: string)
    requires IsSubsequence(a, b) && IsSubsequence(b, c)
    ensures IsSubsequence(a, c)
    decreases |c|
  {
    if a != [] {
      if IsSubsequence(b, c[1..]) {
        SubsequenceTransitive(a, b, c[1..]);
      } else if IsSubsequence(a, b[1..]) {
        SubsequenceTransitive(a, b[1..], c[1..]);
      } else {
        SubsequenceTransitive(a[1..], b[1..], c[1..]);
      }
    }
  }

  lemma {:induction false} KeepWordCharsIsSubsequence(s: string)
    ensures IsSubsequence(KeepWordChars(s), s)
  {
    if s != [] {
      var r := KeepWordChars(s);
      KeepWordCharsIsSubsequence(s[1..]);
      if IsWordChar(s[0]) {
        assert r[0] == s[0] && r[1..] == KeepWordChars(s[1..]);
      } else {
        assert r == KeepWordChars(s[1..]);
      }
    }
  }

  /** The second step keeps every occurrence of a word character and none of
      any other character; with `KeepWordCharsIsSubsequence`, it keeps the
      word characters in their order. */
  lemma {:induction false} KeepWordCharsCount(s: string, c: char)
    ensures multiset(KeepWordChars(s))[c] == if IsWordChar(c) then multiset(s)[c] else 0
  {
    if s != [] {
      KeepWordCharsCount(s[1..], c);
      assert s == [s[0]] + s[1..];
      assert multiset(s) == multiset([s[0]]) + multiset(s[1..]);
      var head := if IsWordChar(s[0]) then [s[0]] else [];
      assert KeepWordChars(s) == head + KeepWordChars(s[1..]);
      assert multiset(KeepWordChars(s)) == multiset(head) + multiset(KeepWordChars(s[1..]));
    }
  }

  lemma {:induction false} KeepWordCharsOfLowerLength(s: string)
    ensures |KeepWordChars(Lower(s))| <= |s|
  {
    if s != [] {
      var c := s[0];
      KeepWordCharsAppend(LowerChar(c), Lower(s[1..]));
      KeepWordCharsKeeps(LowerChar(c));
      if c == '\U{0130}' {
        assert KeepWordChars(['\U{0307}']) == [];
        assert KeepWordChars(LowerChar(c)) == ['i'] + KeepWordChars(['\U{0307}']);
      }
      KeepWordCharsOfLowerLength(s[1..]);
    }
  }

  /** Every step only deletes characters, so the result is a subsequence of the
      lower-cased label and never longer than the label itself. */
  lemma CleanIsSubsequence(s: string)
    ensures IsSubsequence(Clean(s), Lower(s))
    ensures |Clean(s)| <= |s|
  {
    StripHasNoEffect(s);
    var w := KeepWordChars(Lower(s));
    DropLeadingNonLettersSuffix(w);
    SubsequenceOfSuffix(w, |w| - |Clean(s)|);
    KeepWordCharsIsSubsequence(Lower(s));
    SubsequenceTransitive(Clean(s), w, Lower(s));
    KeepWordCharsOfLowerLength(s);
  }

  // ---------------------------------------------------------------------------
  // Idempotence.

  lemma {:induction false} LowerOfNameChars(s: string)
    requires forall i | 0 <= i < |s| :: IsNameChar(s[i])
    ensures Lower(s) == s
  {
    if s != [] {
      LowerOfNameChars(s[1..]);
    }
  }

  lemma {:induction false} KeepWordCharsOfWordChars(s: string)
    requires forall i | 0 <= i < |s| :: IsWordChar(s[i])
    ensures KeepWordChars(s) == s
  {
    if s != [] {
      KeepWordCharsOfWordChars(s[1..]);
    }
  }

  /** The names `clean` can return are exactly the strings it leaves alone. */
  lemma CleanFixedPoints(s: string)
    ensures Clean(s) == s <==> IsName(s)
  {
    if IsName(s) {
      LowerOfNameChars(s);
      KeepWordCharsOfWordChars(s);
      assert TrimStart(s) == s;
      assert TrimEnd(s) == s;
    } else {
      CleanIsName(s);
    }
  }

  /** Cleaning an already cleaned label changes nothing. */
  lemma CleanIdempotent(s: string)
    ensures Clean(Clean(s)) == Clean(s)
  {
    CleanIsName(s);
    CleanFixedPoints(Clean(s));
  }
}
