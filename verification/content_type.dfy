/**
 * Minifying a mediatype such as `text/html; charset="UTF-8"`: whitespace
 * outside double quotes is squeezed out of the buffer in place, and then the
 * whole result, quoted text included, is lowercased in place.
 *
 * The quote state flips on every '"' that is kept; there is no escaping, and
 * since a '"' is not whitespace every '"' is kept.
 */
module MediaType {
  import opened Bytes

  /** Whitespace as the byte classifier sees it: space, tab, line feed, form feed and carriage return. */
  predicate IsWhitespace(c: byte) {
    c == SPACE || c == TAB || c == 10 || c == 12 || c == 13
  }

  /** Inside a quoted region after the bytes of `t`: an odd number of '"' so far. */
  function Quoted(t: seq<byte>): bool {
    if t == [] then false else Quoted(t[..|t| - 1]) != (t[|t| - 1] == QUOTE)
  }

  /** Byte i is dropped: whitespace met outside quotes. */
  predicate Dropped(t: seq<byte>, i: nat)
    requires i < |t|
  {
    !Quoted(t[..i]) && IsWhitespace(t[i])
  }

  /** The bytes of `t` that are not dropped, in their order. */
  function Compacted(t: seq<byte>): (r: seq<byte>)
    ensures |r| <= |t|
  {
    if t == [] then []
    else Compacted(t[..|t| - 1]) + (if Dropped(t, |t| - 1) then [] else [t[|t| - 1]])
  }

  /** The bytes of `t` that are dropped, in their order. */
  function Removed(t: seq<byte>): seq<byte> {
    if t == [] then []
    else Removed(t[..|t| - 1]) + (if Dropped(t, |t| - 1) then [t[|t| - 1]] else [])
  }

  predicate IsUpper(c: byte) {
    UPPER_A <= c <= UPPER_Z
  }

  /** ASCII lowercasing of one byte. */
  function LowerByte(c: byte): (r: byte)
    ensures !IsUpper(r)
    ensures !IsUpper(c) ==> r == c
    ensures IsUpper(c) ==> LOWER_A <= r <= LOWER_Z && r - LOWER_A == c - UPPER_A
  {
    if UPPER_A <= c <= UPPER_Z then c + (LOWER_A - UPPER_A) else c
  }

  /** ASCII lowercasing of every byte: no upper-case letter is left, and every other byte stays. */
  function Lower(t: seq<byte>): (r: seq<byte>)
    ensures |r| == |t|
    ensures forall i :: 0 <= i < |r| ==> !IsUpper(r[i])
    ensures forall i :: 0 <= i < |t| && !IsUpper(t[i]) ==> r[i] == t[i]
  {
    seq(|t|, i requires 0 <= i < |t| => LowerByte(t[i]))
  }

  /** What the minifier returns for a mediatype: no longer than it, and with no upper-case letter. */
  function Minified(t: seq<byte>): (r: seq<byte>)
    ensures |r| <= |t| && forall i :: 0 <= i < |r| ==> !IsUpper(r[i])
  {
    Lower(Compacted(t))
  }

  /**
   * ContentType: squeezes the unquoted whitespace out of the buffer in
   * place, then lowercases what is left in place. The result is the
   * buffer's first |r| bytes; the bytes after them are left as they were.
   */
  method ContentType(b: array<byte>) returns (r: seq<byte>)
    modifies b
    ensures r == Minified(old(b[..]))
    ensures |r| <= b.Length && r == b[..|r|] && b[|r|..] == old(b[|r|..])
  {
    var j := Compact(b);
    ToLower(b, j);
    r := b[..j];
  }

  /**
   * The compaction loop: `j` is the write cursor, `start` the first byte of
   * the pending run of kept bytes (0 until the first whitespace is dropped),
   * `inString` the quote state. Each dropped byte flushes the pending run to
   * the cursor with an overlapping copy.
   */
  method Compact(b: array<byte>) returns (j: nat)
    modifies b
    ensures j <= b.Length && b[..j] == Compacted(old(b[..])) && b[j..] == old(b[j..])
  {
    ghost var B := b[..];
    var start: nat := 0;
    var inString := false;
    var i: nat := 0;
    j := 0;
    while i < b.Length
      invariant i <= b.Length && Scanned(b[..], B, i, j, start, inString)
    {
      j, start, inString := Advance(b, i, j, start, inString, B);
      i := i + 1;
    }
    assert B[..b.Length] == B;
    if start != 0 {
      var n := Flush(b, j, start, b.Length, B);
      j := j + n;
    } else {
      j := b.Length;
    }
  }

  /**
   * The loop's state after scanning B[..i]: the buffer holds the kept bytes
   * before `start` at [0, j), the pending run B[start..i] is still in place,
   * and nothing from j on has been written.
   */
  ghost predicate Scanned(cur: seq<byte>, B: seq<byte>, i: nat, j: nat, start: nat, inString: bool) {
    j <= start <= i <= |B| == |cur|
    && inString == Quoted(B[..i])
    && cur[j..] == B[j..]
    && Compacted(B[..i]) == cur[..j] + B[start..i]
    && (start == 0 ==> j == 0)
  }

  /** One iteration: byte i is dropped (flushing the pending run), or joins the run and may flip the quote state. */
  method Advance(b: array<byte>, i: nat, j: nat, start: nat, inString: bool, ghost B: seq<byte>)
    returns (j': nat, start': nat, inString': bool)
    requires i < b.Length && Scanned(b[..], B, i, j, start, inString)
    modifies b
    ensures Scanned(b[..], B, i + 1, j', start', inString')
  {
    var c := b[i];
    Step(B, i);
    j', start', inString' := j, start, inString;
    if !inString && IsWhitespace(c) {
      if start != 0 {
        var n := Flush(b, j, start, i, B);
        j' := j + n;
      } else {
        assert b[..] == B;
        j' := i;
      }
      start' := i + 1;
    } else {
      Extend(B, start, i);
      if c == QUOTE {
        inString' := !inString;
      }
    }
  }

  lemma {:induction false} Extend<T>(t: seq<T>, lo: nat, i: nat)
    requires lo <= i < |t|
    ensures t[lo..i + 1] == t[lo..i] + [t[i]]
  {
  }

  /** Go's `copy(b[j:], b[start:i])` on the pending run, which has not been overwritten yet. */
  method Flush(b: array<byte>, j: nat, start: nat, i: nat, ghost B: seq<byte>) returns (n: nat)
    requires |B| == b.Length && j <= start <= i <= b.Length && b[j..] == B[j..]
    modifies b
    ensures n == i - start
    ensures b[..j + n] == old(b[..j]) + B[start..i] && b[j + n..] == B[j + n..]
  {
    ghost var before := b[..];
    n := Copy(b, j, start, i);
    Flushed(before, b[..], B, j, start, i);
  }

  /** Flushing the pending run B[start..i] to the cursor j extends the written prefix by it. */
  lemma {:induction false} Flushed(before: seq<byte>, after: seq<byte>, B: seq<byte>, j: nat, start: nat, i: nat)
    requires |before| == |after| == |B| && j <= start <= i <= |B|
    requires before[j..] == B[j..]
    requires forall p :: j <= p < j + (i - start) ==> after[p] == before[p - j + start]
    requires forall t :: 0 <= t < |B| && !(j <= t < j + (i - start)) ==> after[t] == before[t]
    ensures after[..j + (i - start)] == before[..j] + B[start..i]
    ensures after[j + (i - start)..] == B[j + (i - start)..]
  {
    var k := j + (i - start);
    forall p | 0 <= p < k
      ensures after[p] == (before[..j] + B[start..i])[p]
    {
      if p >= j {
        assert before[p - j + start] == B[p - j + start] by {
          assert before[j..][p - j + start - j] == B[j..][p - j + start - j];
        }
      }
    }
    forall p | k <= p < |B|
      ensures after[p] == B[p]
    {
      assert before[j..][p - j] == B[j..][p - j];
    }
  }

  /** Scanning one more byte: the quote state flips on '"', and the byte is kept unless dropped. */
  lemma {:induction false} Step(t: seq<byte>, i: nat)
    requires i < |t|
    ensures Quoted(t[..i + 1]) == (Quoted(t[..i]) != (t[i] == QUOTE))
    ensures Compacted(t[..i + 1]) == Compacted(t[..i]) + (if Dropped(t, i) then [] else [t[i]])
    ensures Removed(t[..i + 1]) == Removed(t[..i]) + (if Dropped(t, i) then [t[i]] else [])
  {
    assert t[..i + 1][..i] == t[..i];
  }

  /** Lowercases `a[..n]` in place and leaves the rest alone. */
  method ToLower(a: array<byte>, n: nat)
    requires n <= a.Length
    modifies a
    ensures a[..n] == Lower(old(a[..n])) && a[n..] == old(a[n..])
  {
    var i := 0;
    while i < n
      invariant i <= n
      invariant forall k :: 0 <= k < i ==> a[k] == LowerByte(old(a[k]))
      invariant forall k :: i <= k < a.Length ==> a[k] == old(a[k])
    {
      if UPPER_A <= a[i] <= UPPER_Z {
        a[i] := a[i] + (LOWER_A - UPPER_A);
      }
      i := i + 1;
    }
  }

  /** Lowercasing keeps the quote state: it changes no '"'. */
  lemma {:induction false} QuotedLower(t: seq<byte>)
    ensures Quoted(Lower(t)) == Quoted(t)
    decreases |t|
  {
    if t != [] {
      var k := |t| - 1;
      assert Lower(t)[..k] == Lower(t[..k]);
      QuotedLower(t[..k]);
    }
  }

  /** Dropping leaves the quote state alone: a dropped byte is whitespace, never '"'. */
  lemma {:induction false} QuotedCompacted(t: seq<byte>)
    ensures Quoted(Compacted(t)) == Quoted(t)
    decreases |t|
  {
    if t != [] {
      var k := |t| - 1;
      QuotedCompacted(t[..k]);
      if !Dropped(t, k) {
        var c := Compacted(t);
        assert c[..|c| - 1] == Compacted(t[..k]) && c[|c| - 1] == t[k];
      } else {
        assert Compacted(t) == Compacted(t[..k]) + [] == Compacted(t[..k]);
        assert t[k] != QUOTE;
        assert Quoted(t) == (Quoted(t[..k]) != (t[k] == QUOTE));
      }
    }
  }

  /** No whitespace outside quotes is left after compaction. */
  lemma {:induction false} CompactedClean(t: seq<byte>)
    ensures forall i :: 0 <= i < |Compacted(t)| ==> !Dropped(Compacted(t), i)
    decreases |t|
  {
    if t != [] {
      var k := |t| - 1;
      var c, c' := Compacted(t), Compacted(t[..k]);
      CompactedClean(t[..k]);
      QuotedCompacted(t[..k]);
      forall i | 0 <= i < |c|
        ensures !Dropped(c, i)
      {
        assert c[..i] == c'[..i] || i == |c'|;
        if i < |c'| {
          assert c[i] == c'[i];
          assert !Dropped(c', i);
        } else {
          assert c[..i] == c';
        }
      }
    }
  }

  /** The kept bytes and the dropped bytes together are the input: nothing is lost or invented, and only whitespace is dropped. */
  lemma {:induction false} Partition(t: seq<byte>)
    ensures |Compacted(t)| + |Removed(t)| == |t|
    ensures multiset(Compacted(t)) + multiset(Removed(t)) == multiset(t)
    ensures forall k :: 0 <= k < |Removed(t)| ==> IsWhitespace(Removed(t)[k])
  {
    Split(t);
    RemovedWhitespace(t);
  }

  lemma {:induction false} Split(t: seq<byte>)
    ensures |Compacted(t)| + |Removed(t)| == |t|
    ensures multiset(Compacted(t)) + multiset(Removed(t)) == multiset(t)
    decreases |t|
  {
    if t != [] {
      var k := |t| - 1;
      Split(t[..k]);
      assert t == t[..k] + [t[k]];
      assert multiset(t) == multiset(t[..k]) + multiset{t[k]};
    }
  }

  lemma {:induction false} RemovedWhitespace(t: seq<byte>)
    ensures forall k :: 0 <= k < |Removed(t)| ==> IsWhitespace(Removed(t)[k])
    decreases |t|
  {
    if t != [] {
      var k := |t| - 1;
      RemovedWhitespace(t[..k]);
      var r, r' := Removed(t), Removed(t[..k]);
      assert forall q :: 0 <= q < |r'| ==> r[q] == r'[q];
    }
  }

  /** A dropped byte is counted among the removed ones. */
  lemma {:induction false} DroppedRemoved(t: seq<byte>, i: nat)
    requires i < |t| && Dropped(t, i)
    ensures |Removed(t)| >= 1
    decreases |t|
  {
    var k := |t| - 1;
    if i < k {
      assert t[..k][..i] == t[..i];
      DroppedRemoved(t[..k], i);
    }
  }

  /** With nothing to drop, compaction keeps the input as it is. */
  lemma {:induction false} NothingToDrop(t: seq<byte>)
    requires forall i :: 0 <= i < |t| ==> !Dropped(t, i)
    ensures Compacted(t) == t
    decreases |t|
  {
    if t != [] {
      var k := |t| - 1;
      forall i | 0 <= i < k
        ensures !Dropped(t[..k], i)
      {
        assert t[..k][..i] == t[..i];
        assert !Dropped(t, i);
      }
      NothingToDrop(t[..k]);
      assert t == t[..k] + [t[k]];
    }
  }

  /** Compaction changes nothing exactly when no byte is whitespace outside quotes. */
  lemma {:induction false} NothingDropped(t: seq<byte>)
    ensures Compacted(t) == t <==> forall i :: 0 <= i < |t| ==> !Dropped(t, i)
  {
    if forall i :: 0 <= i < |t| ==> !Dropped(t, i) {
      NothingToDrop(t);
    } else {
      var i :| 0 <= i < |t| && Dropped(t, i);
      DroppedRemoved(t, i);
      Partition(t);
    }
  }

  /** What compaction keeps of a prefix is a prefix of what it keeps of the whole. */
  lemma {:induction false} PrefixCompacted(t: seq<byte>, n: nat)
    requires n <= |t|
    ensures Compacted(t[..n]) <= Compacted(t)
    decreases |t| - n
  {
    if n < |t| {
      PrefixCompacted(t, n + 1);
      Step(t, n);
    } else {
      assert t[..n] == t;
    }
  }

  /**
   * Every byte that is not whitespace, or that sits inside quotes, is kept,
   * at the place given by the number of bytes kept before it, so the kept
   * bytes keep their order.
   */
  lemma {:induction false} KeptInOrder(t: seq<byte>, i: nat, k: nat)
    requires i < k < |t|
    requires !IsWhitespace(t[i]) || Quoted(t[..i])
    requires !IsWhitespace(t[k]) || Quoted(t[..k])
    ensures |Compacted(t[..i])| < |Compacted(t[..k])| < |Compacted(t)|
    ensures Compacted(t)[|Compacted(t[..i])|] == t[i] && Compacted(t)[|Compacted(t[..k])|] == t[k]
  {
    Step(t, i);
    Step(t, k);
    PrefixCompacted(t, i + 1);
    PrefixCompacted(t, k + 1);
    assert t[..k][..i + 1] == t[..i + 1];
    PrefixCompacted(t[..k], i + 1);
  }

  /** The result is the input less the dropped whitespace, lowercased. */
  lemma {:induction false} MinifiedLength(t: seq<byte>)
    ensures |Minified(t)| == |t| - |Removed(t)|
  {
    Partition(t);
  }

  /** With no whitespace outside quotes, the result is the lowercased input. */
  lemma {:induction false} MinifiedPlain(t: seq<byte>)
    requires forall i :: 0 <= i < |t| ==> !Dropped(t, i)
    ensures Minified(t) == Lower(t)
  {
    NothingToDrop(t);
  }

  /** Minifying a minified mediatype changes nothing. */
  lemma {:induction false} MinifiedIdempotent(t: seq<byte>)
    ensures Minified(Minified(t)) == Minified(t)
  {
    var c := Compacted(t);
    var m := Lower(c);
    CompactedClean(t);
    forall i | 0 <= i < |m|
      ensures !Dropped(m, i)
    {
      assert m[..i] == Lower(c[..i]);
      QuotedLower(c[..i]);
      assert !Dropped(c, i);
    }
    NothingToDrop(m);
    LowerIdempotent(m);
  }

  lemma {:induction false} LowerIdempotent(t: seq<byte>)
    ensures Lower(Lower(t)) == Lower(t)
  {
  }
}
