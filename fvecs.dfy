// The fvecs/ivecs decoder (FvecsRead, IvecsRead).
// A file is a run of records; each record is a dimension word `d` followed by
// `d` payload words. The decoder reads the first dimension word, checks it and
// the file size, reads every word into one buffer and then slides the payloads
// of all records to the front, leaving a dense `n * d` prefix.
module Fvecs {
  import opened FileWords
  import opened Failures

  /** The largest dimension plus one that the decoder accepts. */
  const DimensionBound: int := 1000000

  /** The shape of a decoded file: `n` vectors of dimension `d`. */
  datatype Shape = Shape(d: nat, n: nat)

  /** A decoded file: its shape and the buffer whose first `n * d` words are the vectors. */
  datatype Loaded = Loaded(d: nat, n: nat, x: array<int32>)

  /** The bytes of one record: the dimension word and `d` payload words. */
  function Stride(d: nat): nat
  {
    (d + 1) * 4
  }

  /** The first dimension word of the file, read as a C `int`. */
  function Header(file: seq<byte>): int32
    requires |file| >= 4
  {
    WordOf(file[0], file[1], file[2], file[3])
  }

  /** The checks on the first dimension word and on the file size, and the
      record count derived from them. */
  function Framing(file: seq<byte>): (r: Result<Shape>)
    ensures r.Ok? <==>
      |file| >= 4 && 0 < Header(file) as int < DimensionBound
      && |file| % Stride(Header(file) as nat) == 0
    ensures r.Ok? ==>
      r.value.d == Header(file) as int && r.value.n * Stride(r.value.d) == |file|
    ensures r.Ok? ==> r.value.n > 0 && |Words(file)| == r.value.n * (r.value.d + 1)
    ensures r.Err? && |file| >= 4 && !(0 < Header(file) as int < DimensionBound) ==>
      r.error == UnreasonableDimension(Header(file) as int)
  {
    if |file| < 4 then Err(MissingHeader)
    else
      var d := Header(file) as int;
      if !(0 < d < DimensionBound) then Err(UnreasonableDimension(d))
      else if |file| % Stride(d) != 0 then Err(WeirdFileSize(|file|, Stride(d)))
      else
        var n := |file| / Stride(d);
        WholeRecords(|file|, d, n);
        Ok(Shape(d, n))
  }

  /** The checks as the decoder performs them. `d0` is the dimension
      variable after the header read: the file's first word when the file
      has one, and otherwise whatever the uninitialised variable held, since
      a short read is not detected. */
  function FramingAsWritten(file: seq<byte>, d0: int32): (r: Result<Shape>)
    requires |file| >= 4 ==> d0 == Header(file)
    ensures r.Ok? ==> 0 < r.value.d < DimensionBound && r.value.n * Stride(r.value.d) == |file|
  {
    var d := d0 as int;
    if !(0 < d < DimensionBound) then Err(UnreasonableDimension(d))
    else if |file| % Stride(d) != 0 then Err(WeirdFileSize(|file|, Stride(d)))
    else
      var n := |file| / Stride(d);
      ExactQuotient(|file|, Stride(d));
      Ok(Shape(d, n))
  }

  /** A size that `m` divides is its quotient times `m`. */
  lemma ExactQuotient(size: nat, m: nat)
    requires m > 0 && size % m == 0
    ensures (size / m) * m == size
  {
  }

  /** On a file with a header, the checks as performed are the checks of Framing. */
  lemma AsWrittenAgrees(file: seq<byte>, d0: int32)
    requires |file| >= 4 && d0 == Header(file)
    ensures FramingAsWritten(file, d0) == Framing(file)
  {
    if 0 < d0 as int < DimensionBound && |file| % Stride(d0 as nat) == 0 {
      WholeRecords(|file|, d0 as nat, |file| / Stride(d0 as nat));
    }
  }

  /** A file of one to three bytes is still rejected, whatever the
      variable held: no stride of a plausible dimension divides its size. */
  lemma ShortFileRejected(file: seq<byte>, d0: int32)
    requires 0 < |file| < 4
    ensures FramingAsWritten(file, d0).Err?
  {
    var d := d0 as int;
    if 0 < d < DimensionBound {
      SmallRemainder(|file|, Stride(d));
    }
  }

  /** A size below the modulus is its own remainder. */
  lemma SmallRemainder(size: nat, m: nat)
    requires size < m
    ensures size % m == size
  {
  }

  /** An empty file has no header, yet when the variable happens to hold a
      plausible dimension such as 5 the checks pass and zero vectors are
      read; Framing rejects it. */
  lemma EmptyFileAccepted()
    ensures FramingAsWritten([], 5) == Ok(Shape(5, 0))
    ensures Framing([]) == Err(MissingHeader)
  {
  }

  /** A size of `n` whole records holds `n * (d + 1)` words and at least one record. */
  lemma WholeRecords(size: nat, d: nat, n: nat)
    requires size > 0 && size % Stride(d) == 0 && n == size / Stride(d)
    ensures n * Stride(d) == size && n > 0 && size / 4 == n * (d + 1)
  {
    assert n * Stride(d) == (n * (d + 1)) * 4;
  }

  /** `n` records of dimension `d` take four bytes per word. */
  lemma RecordsSize(d: nat, n: nat)
    ensures n * Stride(d) == 4 * (n * (d + 1))
  {
  }

  /** Splitting off the first of `n > 0` records of dimension `d`. */
  lemma PeelRecord(d: nat, n: nat)
    requires n > 0
    ensures n * (d + 1) == (n - 1) * (d + 1) + (d + 1)
    ensures n * d == (n - 1) * d + d
    ensures (n - 1) * d >= 0 && (n - 1) * (d + 1) >= 0
  {
  }

  /** Products grow with their first factor. */
  lemma {:induction false} MulMono(a: nat, b: nat, c: nat)
    requires a <= b
    ensures a * c <= b * c
  {
    if a < b {
      MulMono(a, b - 1, c);
      assert (b - 1) * c + c == b * c;
    }
  }

  /** Record `i < n` lies inside both the framed and the stripped buffer. */
  lemma RecordBounds(d: nat, n: nat, i: nat)
    requires i < n
    ensures i * d + d <= n * d && i * (d + 1) + d + 1 <= n * (d + 1)
  {
    assert i * d + d == (i + 1) * d;
    assert i * (d + 1) + d + 1 == (i + 1) * (d + 1);
    MulMono(i + 1, n, d);
    MulMono(i + 1, n, d + 1);
  }

  /** The offsets of record `i - 1` are those of record `i`, one record back. */
  lemma PreviousRecord(d: nat, i: nat, lo: nat, lw: nat)
    requires i > 0 && lo == i * d && lw == i * (d + 1)
    ensures d <= lo && d + 1 <= lw && lo - d == (i - 1) * d && lw - (d + 1) == (i - 1) * (d + 1)
  {
  }

  /** The payloads of `n` records fit in the words of the records, whichever
      way round the payload size is written. */
  lemma PayloadFits(d: nat, n: nat)
    ensures d * n == n * d && n * d <= n * (d + 1)
  {
    MulMono(d, d + 1, n);
  }

  /** Record `i`'s payload starts at or after its destination, and the next
      record's destination follows it. */
  lemma RecordStep(d: nat, n: nat, i: nat)
    requires i < n
    ensures i * d <= i * (d + 1) + 1 && (i + 1) * d == i * d + d
    ensures (i + 1) * d <= n * d <= n * (d + 1)
  {
    assert i * (d + 1) == i * d + i;
    MulMono(i + 1, n, d);
    MulMono(d, d + 1, n);
  }

  /** A product of `b > 0` divides exactly. */
  lemma DivExact(a: nat, b: nat)
    requires b > 0
    ensures (a * b) % b == 0 && (a * b) / b == a
  {
    var q, r := (a * b) / b, (a * b) % b;
    assert (a - q) * b == r;
    OnlyZeroBelow(a - q, b);
  }

  /** The only multiple of `b > 0` in `[0, b)` is zero times `b`. */
  lemma OnlyZeroBelow(x: int, b: nat)
    requires b > 0 && 0 <= x * b < b
    ensures x == 0
  {
    if x >= 1 {
      MulMono(1, x, b);
      assert false;
    }
  }

  /** A slice of `a + t` that starts past `a` is a slice of `t`. */
  lemma SliceAfter(s: seq<int32>, a: seq<int32>, t: seq<int32>, lo: nat, len: nat, at: nat)
    requires s == a + t && at == lo - |a| && lo + len <= |s|
    ensures s[lo..lo + len] == t[at..at + len]
  {
  }

  /** A slice of `w[k..]` is the slice of `w` shifted by `k`. */
  lemma SliceOfDrop(w: seq<int32>, k: nat, at: nat, len: nat)
    requires k + at + len <= |w|
    ensures w[k..][at..at + len] == w[k + at..k + at + len]
  {
  }

  /** The front of `a + t` is `a`. */
  lemma SliceFront(s: seq<int32>, a: seq<int32>, t: seq<int32>)
    requires s == a + t
    ensures s[0..|a|] == a
  {
  }

  /** Two concatenations with equally long first parts are equal exactly
      when their parts are. */
  lemma SplitEq(a: seq<int32>, b: seq<int32>, c: seq<int32>, e: seq<int32>)
    requires |a| == |c|
    ensures a + b == c + e <==> a == c && b == e
  {
    if a + b == c + e {
      assert a == (a + b)[..|a|] && c == (c + e)[..|a|];
      assert b == (a + b)[|a|..] && e == (c + e)[|a|..];
    }
  }

  /** The payloads of `n` records of dimension `d`, headers removed. */
  function Strip(w: seq<int32>, d: nat, n: nat): (p: seq<int32>)
    ensures |w| == n * (d + 1) ==> |p| == n * d
  {
    if n == 0 || |w| < d + 1 then []
    else
      assert |w| == n * (d + 1) ==> |w[d + 1..]| == (n - 1) * (d + 1) by { PeelRecord(d, n); }
      w[1..d + 1] + Strip(w[d + 1..], d, n - 1)
  }

  /** The words of `n` records of dimension `d` holding the payload `p`: the
      framing a writer of such a file produces. */
  function Frame(d: nat, p: seq<int32>, n: nat): (w: seq<int32>)
    requires d < DimensionBound
    ensures |p| == n * d ==> |w| == n * (d + 1)
  {
    if n == 0 || |p| < d then []
    else
      assert |p| == n * d ==> |p[d..]| == (n - 1) * d by { PeelRecord(d, n); }
      [d as int32] + p[..d] + Frame(d, p[d..], n - 1)
  }

  /** Every one of the `n` record headers in `w` equals `d`. */
  predicate HeadersAre(w: seq<int32>, d: nat, n: nat)
  {
    n == 0 || (d + 1 <= |w| && w[0] as int == d && HeadersAre(w[d + 1..], d, n - 1))
  }

  /** Removing the headers of framed payloads gives the payloads back. */
  lemma {:induction false} StripFrame(d: nat, p: seq<int32>, n: nat)
    requires d < DimensionBound && |p| == n * d
    ensures Strip(Frame(d, p, n), d, n) == p
  {
    if n > 0 {
      PeelRecord(d, n);
      var w := Frame(d, p, n);
      assert w[1..d + 1] == p[..d];
      assert w[d + 1..] == Frame(d, p[d..], n - 1);
      StripFrame(d, p[d..], n - 1);
    }
  }

  /** Strip, one record at a time. */
  lemma StripCons(w: seq<int32>, d: nat, n: nat)
    requires |w| == n * (d + 1) && n > 0
    ensures d + 1 <= |w| && |w[d + 1..]| == (n - 1) * (d + 1) && n * d == (n - 1) * d + d
    ensures Strip(w, d, n) == w[1..d + 1] + Strip(w[d + 1..], d, n - 1)
  {
    PeelRecord(d, n);
  }

  /** Frame, one record at a time. */
  lemma FrameCons(d: nat, p: seq<int32>, n: nat)
    requires d < DimensionBound && |p| == n * d && n > 0
    ensures d <= |p| && |p[d..]| == (n - 1) * d
    ensures Frame(d, p, n) == [d as int32] + p[..d] + Frame(d, p[d..], n - 1)
  {
    PeelRecord(d, n);
  }

  /** A record with header `d` and payload `w[1..d + 1]` followed by `f`
      is `w` exactly when `w` starts with header `d` and continues with `f`. */
  lemma RecordEq(w: seq<int32>, d: nat, f: seq<int32>)
    requires d < DimensionBound && d + 1 <= |w|
    ensures [d as int32] + w[1..d + 1] + f == w <==> w[0] as int == d && f == w[d + 1..]
  {
    var head: seq<int32> := [d as int32] + w[1..d + 1];
    assert w == w[..d + 1] + w[d + 1..];
    SplitEq(head, f, w[..d + 1], w[d + 1..]);
    assert w[..d + 1] == w[..1] + w[1..d + 1];
    SplitEq([d as int32], w[1..d + 1], w[..1], w[1..d + 1]);
  }

  /** Re-framing the stripped payloads restores the words exactly when every
      record header equals `d`: headers other than the first are dropped
      without being looked at. */
  lemma {:induction false} FrameStrip(w: seq<int32>, d: nat, n: nat)
    requires d < DimensionBound && |w| == n * (d + 1)
    ensures Frame(d, Strip(w, d, n), n) == w <==> HeadersAre(w, d, n)
  {
    if n > 0 {
      StripCons(w, d, n);
      var rest := w[d + 1..];
      var p := Strip(w, d, n);
      var tail := Strip(rest, d, n - 1);
      assert p[..d] == w[1..d + 1] && p[d..] == tail;
      FrameCons(d, p, n);
      assert Frame(d, p, n) == [d as int32] + w[1..d + 1] + Frame(d, tail, n - 1);
      RecordEq(w, d, Frame(d, tail, n - 1));
      FrameStrip(rest, d, n - 1);
      assert HeadersAre(w, d, n) <==> w[0] as int == d && HeadersAre(rest, d, n - 1);
    }
  }

  /** Where record `i`'s payload sits in the stripped output: at `lo == i * d`,
      copied from just after its header at `lw == i * (d + 1)`. */
  lemma {:induction false} StripBlock(w: seq<int32>, d: nat, n: nat, i: nat, lo: nat, lw: nat)
    requires |w| == n * (d + 1) && i < n && lo == i * d && lw == i * (d + 1)
    ensures lo + d <= n * d && lw + 1 + d <= |w|
    ensures Strip(w, d, n)[lo..lo + d] == w[lw + 1..lw + 1 + d]
    decreases i
  {
    StripCons(w, d, n);
    if i > 0 {
      PreviousRecord(d, i, lo, lw);
      var lo', lw' := lo - d, lw - (d + 1);
      StripBlock(w[d + 1..], d, n - 1, i - 1, lo', lw');
      LaterBlock(w, d, n, lo', lw', lo, lw);
    } else {
      RecordBounds(d, n, 0);
      assert lo == 0 && lw == 0;
      SliceFront(Strip(w, d, n), w[1..d + 1], Strip(w[d + 1..], d, n - 1));
    }
  }

  /** A payload block after the first record, at `lo` in the stripped words
      and `lw` in the framed ones, sits where it sits in the remaining
      records, one payload and one record earlier (`lo'` and `lw'`). */
  lemma LaterBlock(w: seq<int32>, d: nat, n: nat, lo': nat, lw': nat, lo: nat, lw: nat)
    requires |w| == n * (d + 1) && n > 0 && lo == lo' + d && lw == lw' + (d + 1)
    requires lo' + d <= (n - 1) * d && lw' + 1 + d <= |w[d + 1..]|
    requires Strip(w[d + 1..], d, n - 1)[lo'..lo' + d] == w[d + 1..][lw' + 1..lw' + 1 + d]
    ensures lo + d <= n * d && lw + 1 + d <= |w|
    ensures Strip(w, d, n)[lo..lo + d] == w[lw + 1..lw + 1 + d]
  {
    StripCons(w, d, n);
    var rest := w[d + 1..];
    calc {
      Strip(w, d, n)[lo..lo + d];
      { SliceAfter(Strip(w, d, n), w[1..d + 1], Strip(rest, d, n - 1), lo, d, lo'); }
      Strip(rest, d, n - 1)[lo'..lo' + d];
      rest[lw' + 1..lw' + 1 + d];
      { SliceOfDrop(w, d + 1, lw' + 1, d); }
      w[lw + 1..lw + 1 + d];
    }
  }

  /** The vectors a well-formed file holds, in file order: the payload words
      of every record, with the record headers removed. */
  function Vectors(file: seq<byte>): (p: seq<int32>)
    requires Framing(file).Ok?
    ensures |p| == Framing(file).value.n * Framing(file).value.d
  {
    var shape := Framing(file).value;
    Strip(Words(file), shape.d, shape.n)
  }

  /** Decoding the bytes of `n > 0` framed records of dimension `d` accepts
      them and yields the payload: the round trip of the file format. */
  lemma DecodeEncoded(d: nat, p: seq<int32>, n: nat)
    requires 0 < d < DimensionBound && 0 < n && |p| == n * d
    ensures Framing(Bytes(Frame(d, p, n))) == Ok(Shape(d, n))
    ensures Vectors(Bytes(Frame(d, p, n))) == p
  {
    var w := Frame(d, p, n);
    var file := Bytes(w);
    PeelRecord(d, n);
    assert w[0] as int == d;
    assert file[..4] == BytesOfWord(w[0]);
    assert Header(file) as int == d;
    assert |file| == n * Stride(d) by {
      RecordsSize(d, n);
    }
    DivExact(n, Stride(d));
    WordsOfBytes(w);
    StripFrame(d, p, n);
  }

  /** Re-encoding the vectors of an accepted file with its framing gives the
      file's bytes back exactly when every record header equals the first:
      the decoder keeps everything but the later headers. */
  lemma EncodeDecoded(file: seq<byte>)
    requires Framing(file).Ok?
    ensures var s := Framing(file).value;
      Bytes(Frame(s.d, Vectors(file), s.n)) == file <==> HeadersAre(Words(file), s.d, s.n)
  {
    var s := Framing(file).value;
    var w := Words(file);
    var f := Frame(s.d, Vectors(file), s.n);
    FrameStrip(w, s.d, s.n);
    RecordsSize(s.d, s.n);
    BytesOfWords(file);
    if Bytes(f) == file {
      WordsOfBytes(f);
    }
  }

  /** Headers after the first are not checked: a file whose second record
      claims dimension 7 is still read as two vectors of dimension 1. */
  lemma LaterHeadersIgnored()
    ensures Framing(Bytes([1, 5, 7, 9])) == Ok(Shape(1, 2))
    ensures Vectors(Bytes([1, 5, 7, 9])) == [5, 9]
  {
    var w: seq<int32> := [1, 5, 7, 9];
    var file := Bytes(w);
    assert file[..4] == BytesOfWord(1);
    assert Header(file) == 1;
    WordsOfBytes(w);
  }

  /** `memmove`: copy `len` words from `src` to `dst`, correct for
      overlapping ranges, leaving every other word as it was. */
  method MemMove(x: array<int32>, dst: nat, src: nat, len: nat)
    requires dst + len <= x.Length && src + len <= x.Length
    modifies x
    ensures x[dst..dst + len] == old(x[src..src + len])
    ensures forall p :: 0 <= p < x.Length && !(dst <= p < dst + len) ==> x[p] == old(x[p])
  {
    ghost var before := x[..];
    if dst <= src {
      // Front to back: a source word is read before any write reaches it.
      var k := 0;
      while k < len
        invariant 0 <= k <= len
        invariant forall p :: dst <= p < dst + k ==> x[p] == before[p - dst + src]
        invariant forall p :: 0 <= p < x.Length && !(dst <= p < dst + k) ==> x[p] == before[p]
      {
        x[dst + k] := x[src + k];
        k := k + 1;
      }
    } else {
      // Back to front, for the same reason.
      var k := len;
      while k > 0
        invariant 0 <= k <= len
        invariant forall p :: dst + k <= p < dst + len ==> x[p] == before[p - dst + src]
        invariant forall p :: 0 <= p < x.Length && !(dst + k <= p < dst + len) ==> x[p] == before[p]
      {
        k := k - 1;
        x[dst + k] := x[src + k];
      }
    }
  }

  /** One step of header stripping: after moving record `i`'s payload from
      `src` down to `dst`, the finished prefix has grown by that payload and
      everything from its end on is still the original buffer. */
  lemma CompactStep(mid: seq<int32>, after: seq<int32>, s: seq<int32>, w: seq<int32>,
                    dst: nat, src: nat, d: nat)
    requires |mid| == |after| == |w| && dst <= src && src + d <= |w| && dst + d <= |s|
    requires mid[..dst] == s[..dst] && mid[dst..] == w[dst..]
    requires after[dst..dst + d] == mid[src..src + d]
    requires forall p :: 0 <= p < |mid| && !(dst <= p < dst + d) ==> after[p] == mid[p]
    requires s[dst..dst + d] == w[src..src + d]
    ensures after[..dst + d] == s[..dst + d] && after[dst + d..] == w[dst + d..]
  {
    forall k | 0 <= k < dst + d
      ensures after[k] == s[k]
    {
      if k < dst {
        assert after[k] == mid[k] == mid[..dst][k];
      } else {
        var j := src + (k - dst);
        assert after[k] == mid[j] by {
          assert after[dst..dst + d][k - dst] == mid[src..src + d][k - dst];
        }
        assert mid[j] == w[j] by {
          assert mid[dst..][j - dst] == w[dst..][j - dst];
        }
        assert w[j] == s[k] by {
          assert s[dst..dst + d][k - dst] == w[src..src + d][k - dst];
        }
      }
    }
    forall k | dst + d <= k < |w|
      ensures after[k] == w[k]
    {
      assert after[k] == mid[k] == mid[dst..][k - dst];
    }
  }

  /** One iteration of the header-stripping loop: move record `i`'s payload
      from just after its header down to offset `i * d`, extending the
      finished prefix by one payload. */
  method MoveRecord(x: array<int32>, ghost w: seq<int32>, ghost s: seq<int32>, d: nat, n: nat, i: nat,
                    ghost done: nat)
    requires x.Length == |w| == n * (d + 1) && s == Strip(w, d, n) && i < n && done == i * d
    requires x[..done] == s[..done] && x[done..] == w[done..]
    modifies x
    ensures done + d <= |s|
    ensures x[..done + d] == s[..done + d] && x[done + d..] == w[done + d..]
  {
    var dst, src := i * d, 1 + i * (d + 1);
    StripBlock(w, d, n, i, dst, src - 1);
    RecordStep(d, n, i);
    ghost var mid := x[..];
    MemMove(x, dst, src, d);
    CompactStep(mid, x[..], s, w, dst, src, d);
  }

  /** The header-stripping loop: move each record's payload down over the
      headers, record by record, so that the first `n * d` words are the
      payloads and the remaining words are left as they were. */
  method StripHeaders(x: array<int32>, d: nat, n: nat)
    requires x.Length == n * (d + 1)
    modifies x
    ensures x[..n * d] == Strip(old(x[..]), d, n)
    ensures x[n * d..] == old(x[..])[n * d..]
  {
    ghost var w := x[..];
    ghost var s := Strip(w, d, n);
    ghost var done := 0;  // words of finished payloads: i * d
    PayloadFits(d, n);
    var i := 0;
    while i < n
      invariant 0 <= i <= n && done == i * d && done <= |s| <= x.Length
      invariant x[..done] == s[..done]
      invariant x[done..] == w[done..]
    {
      MoveRecord(x, w, s, d, n, i, done);
      RecordStep(d, n, i);
      i, done := i + 1, done + d;
    }
  }

  /** FvecsRead: validate the framing, read all words into one buffer of
      `n * (d + 1)` words and strip the record headers in place. */
  method FvecsRead(file: seq<byte>) returns (r: Result<Loaded>)
    ensures r.Ok? <==> Framing(file).Ok?
    ensures r.Err? ==> r.error == Framing(file).error
    ensures r.Ok? ==>
      var loaded := r.value;
      Framing(file) == Ok(Shape(loaded.d, loaded.n)) && fresh(loaded.x)
      && loaded.x.Length == loaded.n * (loaded.d + 1) && loaded.n * loaded.d <= loaded.x.Length
      && loaded.x[..loaded.n * loaded.d] == Vectors(file)
      && loaded.x[loaded.n * loaded.d..] == Words(file)[loaded.n * loaded.d..]
  {
    var shape := Framing(file);
    if shape.Err? {
      return Err(shape.error);
    }
    var d, n := shape.value.d, shape.value.n;
    var w := Words(file);
    var x := new int32[n * (d + 1)](k => if 0 <= k < |w| then w[k] else 0);
    assert x[..] == w;
    PayloadFits(d, n);
    StripHeaders(x, d, n);
    r := Ok(Loaded(d, n, x));
  }

  /** IvecsRead: the same decoder; the identifiers are the same 32-bit words
      read as C `int`s, which is how the model holds every word. */
  method IvecsRead(file: seq<byte>) returns (r: Result<Loaded>)
    ensures r.Ok? <==> Framing(file).Ok?
    ensures r.Err? ==> r.error == Framing(file).error
    ensures r.Ok? ==>
      var loaded := r.value;
      Framing(file) == Ok(Shape(loaded.d, loaded.n)) && fresh(loaded.x)
      && loaded.x.Length == loaded.n * (loaded.d + 1) && loaded.n * loaded.d <= loaded.x.Length
      && loaded.x[..loaded.n * loaded.d] == Vectors(file)
  {
    r := FvecsRead(file);
  }
}
