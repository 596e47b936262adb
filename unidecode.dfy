/**
 * The package state of unidecode.go and its public operation Unidecode.
 *
 * The package-level variables (the table, the `decoded` flag, the mutex and
 * the slice pool) become the fields of one Transliterator object. Its methods
 * update them step by step as the Go functions do, and are proved against the
 * specification functions of TableDecoder and Transliteration.
 */
module Unidecode {
  import opened Wrappers
  import opened TableDecoder
  import opened Transliteration

  /** Inputs up to this many bytes borrow their buffer from the pool (pooledCapacity). */
  const POOLED_CAPACITY := 64

  /** Why a call to Unidecode does not return a string. */
  datatype Fault =
    | TableCorrupt(e: DecodeError)  // the decoder panicked on the asset
    | RuntimePanic(p: Panic)        // the lookup indexed past the table
    | Deadlock                      // mutex.Lock() on a mutex a panicked decoder never unlocked

  function Lift(x: Result<seq<int>, Panic>): Result<seq<int>, Fault>
  {
    match x
    case Success(v) => Success(v)
    case Failure(p) => Failure(RuntimePanic(p))
  }

  /** The number of bytes the UTF-8 encoding of c takes; a value that is not a scalar value is written as U+FFFD. */
  function EncodedLen(c: int): (n: nat)
    ensures 1 <= n <= 4
    ensures n == 1 <==> 0 <= c <= MAX_ASCII
  {
    if 0 <= c <= MAX_ASCII then 1
    else if MAX_ASCII < c < 0x800 then 2
    else if 0x10000 <= c <= MAX_RUNE then 4
    else 3
  }

  /** len(s): the byte length of the string whose code points are s. */
  function ByteLen(s: seq<int>): (n: nat)
    ensures |s| <= n <= 4 * |s|
    ensures n == |s| <==> AsciiOnly(s)
    decreases |s|
  {
    if s == [] then 0
    else
      assert AsciiOnly(s) <==> 0 <= s[0] <= MAX_ASCII && AsciiOnly(s[1..]) by {
        assert forall k :: 0 <= k < |s[1..]| ==> s[1..][k] == s[k + 1];
      }
      EncodedLen(s[0]) + ByteLen(s[1..])
  }

  /** A Go []rune slice: its elements and its capacity. */
  datatype Slice = Slice(elems: seq<int>, cap: nat)

  /** append(r, xs...): the elements are extended; a slice too small for them is reallocated. */
  function Append(r: Slice, xs: seq<int>): (r': Slice)
    ensures r'.elems == r.elems + xs
    ensures r'.cap >= r.cap && r'.cap >= |r'.elems|
  {
    var need := |r.elems| + |xs|;
    Slice(r.elems + xs, if need <= r.cap then r.cap else need)
  }

  /** The free list left after the pool hands out a buffer (the most recently returned one). */
  function Checkout(pool: seq<Slice>): (p: seq<Slice>)
    ensures pool != [] ==> p + [pool[|pool| - 1]] == pool
    ensures pool == [] ==> p == []
  {
    if pool == [] then [] else pool[..|pool| - 1]
  }

  class Transliterator {
    /** The decompressed table asset. */
    const tableData: seq<byte>
    /** transliterations [65536][]rune */
    const transliterations: array<Option<seq<int>>>
    /** Set once the table has been decoded. */
    var decoded: bool
    /** Whether the package mutex is held. */
    var locked: bool
    /** The buffers the slice pool holds. */
    var slicePool: seq<Slice>

    /**
     * The table is either untouched, or exactly the decoded asset. The mutex
     * is held outside a call only when a decode panicked while holding it.
     */
    ghost predicate Valid()
      reads this, transliterations
    {
      && transliterations.Length == TableSize
      && (decoded ==> !locked && ScanRecords(tableData).failure.None?
                      && transliterations[..] == DecodedTable(tableData))
      && (!decoded && !locked ==> transliterations[..] == EmptyTable())
      && (!decoded && locked ==> ScanRecords(tableData).failure.Some?
                                 && transliterations[..] == DecodedTable(tableData))
    }

    constructor (tableData: seq<byte>)
      ensures Valid() && fresh(transliterations)
      ensures this.tableData == tableData && !decoded && !locked && slicePool == []
      ensures transliterations[..] == EmptyTable()
    {
      var table := new Option<seq<int>>[TableSize](_ => None);
      assert table[..] == EmptyTable();
      this.tableData := tableData;
      transliterations := table;
      decoded, locked, slicePool := false, false, [];
    }

    /**
     * decodeTransliterations: read records from the asset until it ends,
     * storing each payload in its slot; stop at the first truncated record.
     */
    method DecodeTransliterations() returns (failure: Option<DecodeError>)
      requires transliterations.Length == TableSize
      modifies transliterations
      ensures failure == ScanRecords(tableData).failure
      ensures transliterations[..] == Store(old(transliterations[..]), ScanRecords(tableData).records)
    {
      var data := tableData;
      var pos := 0;
      ghost var initial := transliterations[..];
      ghost var done: seq<Record> := [];
      while true
        invariant 0 <= pos <= |data|
        invariant ScanRecords(data).records == done + ScanRecords(data[pos..]).records
        invariant ScanRecords(data).failure == ScanRecords(data[pos..]).failure
        invariant AllWellFormed(done)
        invariant transliterations[..] == Store(initial, done)
        decreases |data| - pos
      {
        var left := |data| - pos;
        if left == 0 {
          assert ScanRecords(data) == Scan(done, None) by {
            ScanStopsAt(data, pos);
            assert done + [] == done;
          }
          break;  // io.EOF at a record boundary
        }
        if left == 1 {
          assert ScanRecords(data) == Scan(done, Some(TruncatedIndex)) by {
            ScanStopsAt(data, pos);
            assert done + [] == done;
          }
          failure := Some(TruncatedIndex);
          return;
        }
        var chr := LittleEndian16(data[pos], data[pos + 1]);
        if left == 2 {
          assert ScanRecords(data) == Scan(done, Some(MissingLength)) by {
            ScanStopsAt(data, pos);
            assert done + [] == done;
          }
          failure := Some(MissingLength);
          return;
        }
        var n := data[pos + 2];
        if left - 3 < n {
          assert ScanRecords(data) == Scan(done, Some(TruncatedPayload(n, left - 3))) by {
            ScanStopsAt(data, pos);
            assert done + [] == done;
          }
          failure := Some(TruncatedPayload(n, left - 3));
          return;
        }
        var next := pos + 3 + n;
        var b := data[pos + 3..next];
        ghost var rec := Record(chr, b);
        assert ScanRecords(data).records == (done + [rec]) + ScanRecords(data[next..]).records
            && ScanRecords(data).failure == ScanRecords(data[next..]).failure by {
          ScanRecordAt(data, pos, next, done);
        }
        StoreSnoc(initial, done, rec);
        ghost var table := Store(initial, done + [rec]);
        assert table == transliterations[..][chr := Some(Runes(b))];
        transliterations[chr] := Some(Runes(b));
        assert transliterations[..] == table;
        done := done + [rec];
        pos := next;
      }
      failure := None;
    }

    /** Take a buffer for an input of l bytes (unidecode.go:72-82); it is always empty. */
    method GetSlice(l: nat) returns (r: Slice)
      modifies this`slicePool
      ensures r.elems == []
      ensures l > POOLED_CAPACITY ==> r.cap == l && slicePool == old(slicePool)
      ensures l <= POOLED_CAPACITY ==> slicePool == Checkout(old(slicePool))
      ensures l <= POOLED_CAPACITY && old(slicePool) == [] ==> r.cap == POOLED_CAPACITY
      ensures l <= POOLED_CAPACITY && old(slicePool) != [] ==> r.cap == old(slicePool)[|old(slicePool)| - 1].cap
    {
      if l > POOLED_CAPACITY {
        r := Slice([], l);
      } else if slicePool != [] {
        var x := slicePool[|slicePool| - 1];
        slicePool := Checkout(slicePool);
        r := Slice(x.elems[..0], x.cap);
      } else {
        r := Slice([], POOLED_CAPACITY);
      }
    }

    /** Hand the buffer back for an input of l bytes (unidecode.go:97-99): only small inputs return it. */
    method PutSlice(r: Slice, l: nat)
      modifies this`slicePool
      ensures l <= POOLED_CAPACITY ==> slicePool == old(slicePool) + [r]
      ensures l > POOLED_CAPACITY ==> slicePool == old(slicePool)
    {
      if l <= POOLED_CAPACITY {
        slicePool := slicePool + [r];
      }
    }

    /** Unidecode: decode the table on first use, then transliterate s code point by code point. */
    method Unidecode(s: seq<int>) returns (res: Result<seq<int>, Fault>)
      requires Valid()
      modifies this, transliterations
      ensures Valid()
      ensures decoded == (old(decoded) || (!old(locked) && ScanRecords(tableData).failure.None?))
      ensures locked == (!decoded && (old(locked) || ScanRecords(tableData).failure.Some?))
      ensures old(decoded) || old(locked) ==> transliterations[..] == old(transliterations[..])
      ensures !old(decoded) && !old(locked) ==> transliterations[..] == DecodedTable(tableData)
      ensures !old(decoded) && old(locked) ==> res == Failure(Deadlock) && slicePool == old(slicePool)
      ensures !old(decoded) && !old(locked) && ScanRecords(tableData).failure.Some? ==>
        res == Failure(TableCorrupt(ScanRecords(tableData).failure.value)) && slicePool == old(slicePool)
      ensures decoded ==> res == Lift(Transliterate(DecodedTable(tableData), s))
      ensures res.Success? ==> res.value == TransliterateFixed(DecodedTable(tableData), s)
      ensures decoded && ByteLen(s) > POOLED_CAPACITY ==> slicePool == old(slicePool)
      ensures decoded && ByteLen(s) <= POOLED_CAPACITY && res.Failure? ==> slicePool == Checkout(old(slicePool))
      ensures decoded && ByteLen(s) <= POOLED_CAPACITY && res.Success? ==>
        slicePool != [] && slicePool == Checkout(old(slicePool)) + [slicePool[|slicePool| - 1]]
        && slicePool[|slicePool| - 1].elems == res.value
    {
      if !decoded {
        if locked {
          res := Failure(Deadlock);  // mutex.Lock() never returns
          return;
        }
        locked := true;
        if !decoded {
          var failure := DecodeTransliterations();
          if failure.Some? {
            res := Failure(TableCorrupt(failure.value));  // panic, with the mutex still held
            return;
          }
          decoded := true;
        }
        locked := false;
      }
      var l := ByteLen(s);
      var r := GetSlice(l);
      var out := AppendTransliterated(r, s);
      assert transliterations[..] == DecodedTable(tableData);
      if out.Success? {
        ghost var v := Transliterate(DecodedTable(tableData), s).value;
        assert [] + v == v;
      }
      if out.Failure? {
        res := Failure(RuntimePanic(out.error));  // the buffer is not returned to the pool
        return;
      }
      res := Success(out.value.elems);
      SuccessIsFixed(DecodedTable(tableData), s);
      PutSlice(out.value, l);
    }

    /**
     * The loop of Unidecode (unidecode.go:83-95): append the contribution of
     * each code point of s to the buffer r, in order, or panic on the lookup
     * one past the table.
     */
    method AppendTransliterated(r: Slice, s: seq<int>) returns (out: Result<Slice, Panic>)
      requires transliterations.Length == TableSize
      requires |r.elems| <= r.cap
      ensures out.Success? <==> Transliterate(transliterations[..], s).Success?
      ensures out.Success? ==> out.value.elems == r.elems + Transliterate(transliterations[..], s).value
      ensures out.Success? ==> out.value.cap >= r.cap && |out.value.elems| <= out.value.cap
      ensures out.Failure? ==> out.error == Transliterate(transliterations[..], s).error
    {
      ghost var t := transliterations[..];
      ghost var w: seq<int> := [];
      var cur := r;
      var i := 0;
      while i < |s|
        invariant 0 <= i <= |s|
        invariant Transliterate(t, s[..i]) == Success(w)
        invariant cur.elems == r.elems + w
        invariant cur.cap >= r.cap && |cur.elems| <= cur.cap
      {
        var c := s[i];
        assert s[..i + 1] == s[..i] + [c];
        TransliterateConcat(t, s[..i], [c]);
        Single(t, c);
        if c <= MAX_ASCII {
          cur := Append(cur, [c]);
          w := w + [c];
        } else if c > MAX_RUNE || c > transliterations.Length {
          // reserved code points are ignored
          assert w + [] == w;
        } else if c >= transliterations.Length {
          // transliterations[c] is out of range: a run-time panic
          assert s[..i + 1] + s[i + 1..] == s;
          TransliterateConcat(t, s[..i + 1], s[i + 1..]);
          out := Failure(IndexOutOfRange(c, transliterations.Length));
          return;
        } else {
          var d := transliterations[c];
          assert d == t[c];
          if d.Some? {
            cur := Append(cur, d.value);
            w := w + d.value;
          } else {
            assert w + [] == w;
          }
        }
        i := i + 1;
      }
      assert s[..|s|] == s;
      out := Success(cur);
    }
  }

  /**
   * Two calls in a row with the same input agree once the asset decodes; when
   * it does not, the first call panics and the second blocks on the mutex.
   */
  method RepeatedCalls(data: seq<byte>, s: seq<int>) returns (first: Result<seq<int>, Fault>, second: Result<seq<int>, Fault>)
    ensures ScanRecords(data).failure.None? ==>
      first == second && first == Lift(Transliterate(DecodedTable(data), s))
    ensures ScanRecords(data).failure.Some? ==>
      first == Failure(TableCorrupt(ScanRecords(data).failure.value)) && second == Failure(Deadlock)
  {
    var u := new Transliterator(data);
    first := u.Unidecode(s);
    second := u.Unidecode(s);
  }

  /** Over a decoded table, the lookup panics exactly on inputs that contain code point 65536. */
  lemma {:induction false} DecodedFailsIff65536(data: seq<byte>, s: seq<int>)
    ensures Transliterate(DecodedTable(data), s).Failure? <==> exists k :: 0 <= k < |s| && s[k] == TableSize
  {
    var t := DecodedTable(data);
    FailsIffPanics(t, s);
    assert forall k :: 0 <= k < |s| ==> (Panics(t, s[k]) <==> s[k] == TableSize);
  }

  /** Over a decoded table, the output is at most 255 code points per input code point. */
  lemma DecodedOutputBound(data: seq<byte>, s: seq<int>)
    ensures Transliterate(DecodedTable(data), s).Success? ==>
      |Transliterate(DecodedTable(data), s).value| <= MAX_ENTRY * |s|
  {
    DecodedEntriesShort(data);
    OutputLengthBound(DecodedTable(data), s);
  }
}
