/** Decoding in place: what was read shrinks, and one moving gap keeps the loss. */
module XmlGap {
  /** The kept text of a[begin..s]: all of it, or all but the `size` bytes that end at `end`. */
  ghost predicate Holds(a: seq<char>, end: int, size: nat, begin: nat, s: nat, out: string) {
    && begin <= s <= |a|
    && if end < 0 then size == 0 && a[begin..s] == out
       else begin + size <= end <= s && a[begin..end - size] + a[end..s] == out
  }

  /** Everything outside [from, to) is as it was. */
  ghost predicate SameOutside(a: seq<char>, b: seq<char>, from: nat, to: nat) {
    |a| == |b| && from <= to <= |a| && a[..from] == b[..from] && a[to..] == b[to..]
  }

  /** b after n bytes moved down from src to dst. */
  ghost function Moved(b: seq<char>, dst: nat, src: nat, n: nat): (r: seq<char>)
    requires dst <= src && src + n <= |b|
    ensures |r| == |b|
  {
    b[..dst] + b[src..src + n] + b[dst + n..]
  }

  lemma MovedStep(b: seq<char>, dst: nat, src: nat, n: nat)
    requires dst <= src && src + n < |b|
    ensures Moved(b, dst, src, n)[src + n] == b[src + n]
    ensures Moved(b, dst, src, n)[dst + n := b[src + n]] == Moved(b, dst, src, n + 1)
  {}

  method MoveDown(a: array<char>, dst: nat, src: nat, n: nat)
    requires dst <= src && src + n <= a.Length
    modifies a
    ensures a[..] == Moved(old(a[..]), dst, src, n)
  {
    hide Moved;
    ghost var b := a[..];
    MovedNone(b, dst, src);
    var k := 0;
    while k < n
      invariant k <= n && a[..] == Moved(b, dst, src, k)
    {
      MovedStep(b, dst, src, k);
      ghost var c := a[..];
      assert a[src + k] == c[src + k];
      a[dst + k] := a[src + k];
      assert a[..] == c[dst + k := b[src + k]];
      k := k + 1;
    }
  }

  lemma MovedNone(b: seq<char>, dst: nat, src: nat)
    requires dst <= src <= |b|
    ensures Moved(b, dst, src, 0) == b
  {}

  class Gap {
    /** Where the gap ends; -1 when there is none yet. */
    var end: int
    var size: nat

    constructor ()
      ensures end == -1 && size == 0
    {
      end, size := -1, 0;
    }

    /** Drops the next count bytes; an earlier gap is closed first and its size carried along. */
    method Push(a: array<char>, s: nat, count: nat, ghost begin: nat, ghost out: string) returns (next: nat)
      requires Holds(a[..], end, size, begin, s, out) && s + count <= a.Length
      modifies a, this
      ensures next == s + count && Holds(a[..], end, size, begin, next, out)
      ensures SameOutside(a[..], old(a[..]), begin, s)
    {
      hide Holds, Moved, SameOutside;
      ghost var b := a[..];
      GapBounds(b, end, size, begin, s, out);
      if end >= 0 {
        MoveDown(a, end - size, end, s - end);
      }
      AfterClose(b, a[..], end, size, begin, s, out);
      NewGap(a[..], size, count, begin, s, out);
      next := s + count;
      end := next;
      size := size + count;
    }

    /** Closes the gap; the kept text then ends at e. */
    method Flush(a: array<char>, s: nat, ghost begin: nat, ghost out: string) returns (e: nat)
      requires Holds(a[..], end, size, begin, s, out)
      modifies a
      ensures begin <= e <= s && a[begin..e] == out
      ensures SameOutside(a[..], old(a[..]), begin, s)
    {
      hide Holds, Moved, SameOutside;
      ghost var b := a[..];
      GapBounds(b, end, size, begin, s, out);
      if end >= 0 {
        MoveDown(a, end - size, end, s - end);
        e := s - size;
      } else {
        e := s;
      }
      AfterClose(b, a[..], end, size, begin, s, out);
    }
  }

  lemma GapBounds(b: seq<char>, end: int, size: nat, begin: nat, s: nat, out: string)
    requires Holds(b, end, size, begin, s, out)
    ensures begin <= s <= |b| && (end < 0 ==> size == 0 && b[begin..s] == out)
    ensures end >= 0 ==> begin <= end - size && end <= s
  {}

  /** After the bytes between the gap and s moved down, the kept text is in one piece. */
  lemma AfterClose(b: seq<char>, c: seq<char>, end: int, size: nat, begin: nat, s: nat, out: string)
    requires Holds(b, end, size, begin, s, out)
    requires if end < 0 then c == b else 0 <= end - size && end <= s <= |b| && c == Moved(b, end - size, end, s - end)
    ensures SameOutside(c, b, begin, s) && begin <= s - size && c[begin..s - size] == out
  {
    if end >= 0 {
      var p, q, r := b[..end - size], b[end..s], b[s - size..];
      assert |p + q| == s - size;
      assert c[begin..s - size] == p[begin..] + q;
      assert p[begin..] == b[begin..end - size];
      assert c[s..] == r[size..] == b[s..];
      assert c[..begin] == p[..begin] == b[..begin];
    }
  }

  /** A gap pushed behind text in one piece. */
  lemma NewGap(c: seq<char>, size: nat, count: nat, begin: nat, s: nat, out: string)
    requires begin <= s - size && s + count <= |c| && c[begin..s - size] == out
    ensures Holds(c, s + count, size + count, begin, s + count, out)
  {
    assert c[begin..s - size] + c[s + count..s + count] == c[begin..s - size];
  }

  /** Adding bytes at the end of the kept text. */
  lemma Append(a: seq<char>, end: int, size: nat, begin: nat, s: nat, t: nat, out: string)
    requires Holds(a, end, size, begin, s, out) && s <= t <= |a|
    ensures Holds(a, end, size, begin, t, out + a[s..t])
  {
    if end < 0 {
      assert a[begin..t] == a[begin..s] + a[s..t];
    } else {
      assert a[end..t] == a[end..s] + a[s..t];
      assert a[begin..end - size] + a[end..t] == (a[begin..end - size] + a[end..s]) + a[s..t];
    }
  }

  /** The kept text does not depend on what follows it. */
  lemma HoldsSame(a: seq<char>, b: seq<char>, end: int, size: nat, begin: nat, s: nat, out: string)
    requires Holds(a, end, size, begin, s, out) && |b| == |a| && b[..s] == a[..s]
    ensures Holds(b, end, size, begin, s, out)
  {
    assert b[begin..s] == b[..s][begin..] && a[begin..s] == a[..s][begin..];
    if end >= 0 {
      assert b[begin..end - size] == b[..s][begin..end - size] && a[begin..end - size] == a[..s][begin..end - size];
      assert b[end..s] == b[..s][end..] && a[end..s] == a[..s][end..];
    }
  }
}
