/**
 * The per-code-point rule of Unidecode (unidecode.go:83-95) as a pure
 * specification over a decoded table.
 *
 * Each code point c contributes, in input order:
 *  - itself, when c <= unicode.MaxASCII;
 *  - nothing, when c > unicode.MaxRune or c > transCount, where transCount is
 *    the number of table slots (len(transliterations), so 65536);
 *  - otherwise the table entry transliterations[c], nothing for a nil slot.
 * The guard is `c > transCount`, so c == transCount passes it and indexes one
 * past the last slot; in Go that is a run-time panic, modelled as a Failure.
 */
module Transliteration {
  import opened Wrappers
  import opened TableDecoder

  /** unicode.MaxASCII */
  const MAX_ASCII := 127
  /** unicode.MaxRune */
  const MAX_RUNE := 0x10FFFF
  /** The largest payload the one-byte length field can announce. */
  const MAX_ENTRY := 255

  /** Go's run-time error for transliterations[c] with c out of range. */
  datatype Panic = IndexOutOfRange(index: int, length: int)

  /** The code points for which the lookup indexes past the end of the table. */
  predicate Panics(t: Table, c: int)
  {
    MAX_ASCII < c <= MAX_RUNE && c == |t|
  }

  /** What one code point contributes to the output, as the loop body computes it. */
  function Contribution(t: Table, c: int): (r: Result<seq<int>, Panic>)
    ensures r.Failure? <==> Panics(t, c)
    ensures r.Failure? ==> r.error == IndexOutOfRange(|t|, |t|)
  {
    if c <= MAX_ASCII then Success([c])
    else if c > MAX_RUNE || c > |t| then Success([])       // reserved code points are ignored
    else if c < |t| then
      match t[c]
      case None => Success([])
      case Some(d) => Success(d)
    else Failure(IndexOutOfRange(c, |t|))
  }

  /** Sequencing two pieces of output: the first panic wins, otherwise the outputs are concatenated. */
  function Join(a: Result<seq<int>, Panic>, b: Result<seq<int>, Panic>): Result<seq<int>, Panic>
  {
    if a.Failure? then a else if b.Failure? then b else Success(a.value + b.value)
  }

  /** The output of the transliteration loop on the code points s: their contributions, left to right. */
  function Transliterate(t: Table, s: seq<int>): (r: Result<seq<int>, Panic>)
    ensures r.Failure? ==> r.error == IndexOutOfRange(|t|, |t|)
    decreases |s|
  {
    if s == [] then Success([]) else Join(Contribution(t, s[0]), Transliterate(t, s[1..]))
  }

  /** The output on a concatenation is the output on each part, joined. */
  lemma {:induction false} TransliterateConcat(t: Table, a: seq<int>, b: seq<int>)
    ensures Transliterate(t, a + b) == Join(Transliterate(t, a), Transliterate(t, b))
    decreases |a|
  {
    if a == [] {
      assert a + b == b;
      var z := Transliterate(t, b);
      if z.Success? {
        assert [] + z.value == z.value;
      }
    } else {
      assert (a + b)[0] == a[0];
      assert (a + b)[1..] == a[1..] + b;
      TransliterateConcat(t, a[1..], b);
      var x, y, z := Contribution(t, a[0]), Transliterate(t, a[1..]), Transliterate(t, b);
      if x.Success? && y.Success? && z.Success? {
        assert x.value + (y.value + z.value) == (x.value + y.value) + z.value;
      }
    }
  }

  /** The output on one code point is that code point's contribution. */
  lemma Single(t: Table, c: int)
    ensures Transliterate(t, [c]) == Contribution(t, c)
  {
    assert [c][1..] == [];
    var x := Contribution(t, c);
    if x.Success? {
      assert x.value + [] == x.value;
    }
  }

  /** A code point in the middle of the input contributes its piece in place. */
  lemma Splice(t: Table, a: seq<int>, c: int, b: seq<int>)
    ensures Transliterate(t, a + [c] + b) == Join(Join(Transliterate(t, a), Contribution(t, c)), Transliterate(t, b))
  {
    TransliterateConcat(t, a + [c], b);
    TransliterateConcat(t, a, [c]);
    Single(t, c);
  }

  /** Empty input gives empty output, and the output on ASCII input is the input itself. */
  lemma {:induction false} AsciiUnchanged(t: Table, s: seq<int>)
    requires forall k :: 0 <= k < |s| ==> 0 <= s[k] <= MAX_ASCII
    ensures Transliterate(t, s) == Success(s)
    decreases |s|
  {
    if s != [] {
      AsciiUnchanged(t, s[1..]);
      assert [s[0]] + s[1..] == s;
    }
  }

  /** A non-ASCII code point above unicode.MaxRune or above the table bound leaves no trace. */
  lemma AboveRangeDropped(t: Table, a: seq<int>, c: int, b: seq<int>)
    requires MAX_ASCII < c
    requires c > MAX_RUNE || c > |t|
    ensures Transliterate(t, a + [c] + b) == Transliterate(t, a + b)
  {
    Splice(t, a, c, b);
    TransliterateConcat(t, a, b);
    var x := Transliterate(t, a);
    if x.Success? {
      assert x.value + [] == x.value;
    }
  }

  /** A code point whose slot was never written (nil) leaves no trace. */
  lemma UnsetSlotDropped(t: Table, a: seq<int>, c: int, b: seq<int>)
    requires MAX_ASCII < c < |t|
    requires t[c] == None
    ensures Transliterate(t, a + [c] + b) == Transliterate(t, a + b)
  {
    Splice(t, a, c, b);
    TransliterateConcat(t, a, b);
    var x := Transliterate(t, a);
    if x.Success? {
      assert x.value + [] == x.value;
    }
  }

  /** A code point with a table entry contributes exactly that entry, in place. */
  lemma EntryInserted(t: Table, a: seq<int>, c: int, b: seq<int>, x: seq<int>, y: seq<int>)
    requires MAX_ASCII < c <= MAX_RUNE && c < |t|
    requires t[c].Some?
    requires Transliterate(t, a) == Success(x) && Transliterate(t, b) == Success(y)
    ensures Transliterate(t, a + [c] + b) == Success(x + t[c].value + y)
  {
    Splice(t, a, c, b);
  }

  /** The output panics exactly when some code point hits the slot one past the table. */
  lemma {:induction false} FailsIffPanics(t: Table, s: seq<int>)
    ensures Transliterate(t, s).Failure? <==> exists k :: 0 <= k < |s| && Panics(t, s[k])
    decreases |s|
  {
    if s != [] {
      FailsIffPanics(t, s[1..]);
      if exists k :: 0 <= k < |s| && Panics(t, s[k]) {
        var k :| 0 <= k < |s| && Panics(t, s[k]);
        if k > 0 {
          assert s[1..][k - 1] == s[k];
        }
      }
      if exists k :: 0 <= k < |s[1..]| && Panics(t, s[1..][k]) {
        var k :| 0 <= k < |s[1..]| && Panics(t, s[1..][k]);
        assert s[k + 1] == s[1..][k];
      }
    }
  }

  /** Each code point adds at most 255 code points to the output when no entry is longer than that. */
  lemma {:induction false} OutputLengthBound(t: Table, s: seq<int>)
    requires EntriesAtMost(t, MAX_ENTRY)
    ensures Transliterate(t, s).Success? ==> |Transliterate(t, s).value| <= MAX_ENTRY * |s|
    decreases |s|
  {
    if s != [] {
      OutputLengthBound(t, s[1..]);
    }
  }

  predicate AsciiOnly(s: seq<int>)
  {
    forall k :: 0 <= k < |s| ==> 0 <= s[k] <= MAX_ASCII
  }

  predicate AsciiTable(t: Table)
  {
    forall i :: 0 <= i < |t| && t[i].Some? ==> AsciiOnly(t[i].value)
  }

  /** If every table entry is ASCII, the output is ASCII. */
  lemma {:induction false} OutputAscii(t: Table, s: seq<int>)
    requires AsciiTable(t)
    requires forall k :: 0 <= k < |s| ==> s[k] >= 0
    ensures Transliterate(t, s).Success? ==> AsciiOnly(Transliterate(t, s).value)
    decreases |s|
  {
    if s != [] {
      OutputAscii(t, s[1..]);
      var x, y := Contribution(t, s[0]), Transliterate(t, s[1..]);
      if x.Success? && y.Success? {
        assert AsciiOnly(x.value);
        var out := x.value + y.value;
        forall k | 0 <= k < |out| ensures 0 <= out[k] <= MAX_ASCII {
          if k >= |x.value| {
            assert out[k] == y.value[k - |x.value|];
          }
        }
      }
    }
  }

  /** As written: code point U+10000 (65536) passes the guard and indexes past the 65536-slot table. */
  lemma BoundaryPanics(t: Table)
    requires |t| == TableSize
    ensures Transliterate(t, [TableSize]) == Failure(IndexOutOfRange(TableSize, TableSize))
  {
    Single(t, TableSize);
  }

  /** The intended rule: the guard `c >= transCount` drops every code point without a slot. */
  function ContributionFixed(t: Table, c: int): seq<int>
  {
    if c <= MAX_ASCII then [c]
    else if c > MAX_RUNE || c >= |t| then []
    else
      match t[c]
      case None => []
      case Some(d) => d
  }

  /** The output under the intended guard; it never panics. */
  function TransliterateFixed(t: Table, s: seq<int>): seq<int>
    decreases |s|
  {
    if s == [] then [] else ContributionFixed(t, s[0]) + TransliterateFixed(t, s[1..])
  }

  /** On every input on which the code as written does not panic, the intended rule gives the same output. */
  lemma {:induction false} FixedAgrees(t: Table, s: seq<int>)
    requires forall k :: 0 <= k < |s| ==> !Panics(t, s[k])
    ensures Transliterate(t, s) == Success(TransliterateFixed(t, s))
    decreases |s|
  {
    if s != [] {
      assert forall k :: 0 <= k < |s[1..]| ==> s[1..][k] == s[k + 1];
      FixedAgrees(t, s[1..]);
      assert !Panics(t, s[0]);
    }
  }

  /** Whenever the code as written returns a string, it is the string of the intended rule. */
  lemma {:induction false} SuccessIsFixed(t: Table, s: seq<int>)
    ensures Transliterate(t, s).Success? ==> Transliterate(t, s).value == TransliterateFixed(t, s)
  {
    FailsIffPanics(t, s);
    if Transliterate(t, s).Success? {
      FixedAgrees(t, s);
    }
  }

  lemma {:induction false} FixedConcat(t: Table, a: seq<int>, b: seq<int>)
    ensures TransliterateFixed(t, a + b) == TransliterateFixed(t, a) + TransliterateFixed(t, b)
    decreases |a|
  {
    if a == [] {
      assert a + b == b;
    } else {
      assert (a + b)[0] == a[0];
      assert (a + b)[1..] == a[1..] + b;
      FixedConcat(t, a[1..], b);
    }
  }

  /** Under the intended guard every code point at or above the table bound, 65536 included, leaves no trace. */
  lemma FixedDropsOutsideTable(t: Table, a: seq<int>, c: int, b: seq<int>)
    requires MAX_ASCII < c && c >= |t|
    ensures TransliterateFixed(t, a + [c] + b) == TransliterateFixed(t, a + b)
  {
    assert TransliterateFixed(t, [c]) == [] by {
      assert [c][1..] == [];
    }
    calc {
      TransliterateFixed(t, a + [c] + b);
      { FixedConcat(t, a + [c], b); }
      TransliterateFixed(t, a + [c]) + TransliterateFixed(t, b);
      { FixedConcat(t, a, [c]); assert TransliterateFixed(t, a) + [] == TransliterateFixed(t, a); }
      TransliterateFixed(t, a) + TransliterateFixed(t, b);
      { FixedConcat(t, a, b); }
      TransliterateFixed(t, a + b);
    }
  }
}
