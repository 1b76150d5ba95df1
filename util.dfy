// `move_iov`: advance a POSIX `struct iovec` cursor past bytes already moved.
// Pointers are integers; the cursor is an index into the segment array plus
// a remaining segment count.

module Util {

  /** One `struct iovec`: a base address and a length in bytes. */
  datatype Iovec = Iovec(base: int, len: nat)

  /** Bytes described by a run of segments. */
  function Total(s: seq<Iovec>): nat
  {
    if s == [] then 0 else s[0].len + Total(s[1..])
  }

  /** Number of leading segments that `m` bytes consume completely
      (a segment is consumed when what is left of `m` is at least its length). */
  function Skipped(s: seq<Iovec>, m: nat): (n: nat)
    ensures n <= |s|
    ensures n < |s| ==> Leftover(s, m) < s[n].len
  {
    if s == [] || m < s[0].len then 0 else 1 + Skipped(s[1..], m - s[0].len)
  }

  /** What is left of `m` once the consumed segments are subtracted. */
  function Leftover(s: seq<Iovec>, m: nat): nat
  {
    if s == [] || m < s[0].len then m else Leftover(s[1..], m - s[0].len)
  }

  /** The segment with its first `k` bytes dropped. */
  function Shrink(v: Iovec, k: nat): (r: Iovec)
    requires k <= v.len
    ensures r.len + k == v.len && r.base == v.base + k
  {
    Iovec(v.base + k, v.len - k)
  }

  /** The segments still to be moved once `m` bytes have been moved. */
  function Advance(s: seq<Iovec>, m: nat): seq<Iovec>
  {
    var n := Skipped(s, m);
    if n == |s| then [] else [Shrink(s[n], Leftover(s, m))] + s[n + 1..]
  }

  lemma {:induction false} TotalAppend(a: seq<Iovec>, b: seq<Iovec>)
    ensures Total(a + b) == Total(a) + Total(b)
  {
    if a != [] {
      assert (a + b)[0] == a[0] && (a + b)[1..] == a[1..] + b;
      TotalAppend(a[1..], b);
    } else {
      assert a + b == b;
    }
  }

  /** The skipped segments and the leftover add up to exactly the bytes moved. */
  lemma {:induction false} SkippedAccountsForMove(s: seq<Iovec>, m: nat)
    ensures Total(s[..Skipped(s, m)]) + Leftover(s, m) == m
  {
    if s != [] && m >= s[0].len {
      SkippedAccountsForMove(s[1..], m - s[0].len);
      assert s[..Skipped(s, m)][1..] == s[1..][..Skipped(s[1..], m - s[0].len)];
    }
  }

  /** The cursor runs off the end exactly when at least all the bytes were moved. */
  lemma {:induction false} ExhaustedIff(s: seq<Iovec>, m: nat)
    ensures Skipped(s, m) == |s| <==> Total(s) <= m
  {
    if s != [] && m >= s[0].len {
      ExhaustedIff(s[1..], m - s[0].len);
    }
  }

  /** Conservation: what remains after the advance is the old total minus the
      bytes moved, or nothing when the move covered everything. */
  lemma {:induction false} AdvanceConserves(s: seq<Iovec>, m: nat)
    ensures Total(Advance(s, m)) == if Total(s) <= m then 0 else Total(s) - m
  {
    var n := Skipped(s, m);
    ExhaustedIff(s, m);
    SkippedAccountsForMove(s, m);
    if n < |s| {
      assert s == s[..n] + ([s[n]] + s[n + 1..]);
      TotalAppend(s[..n], [s[n]] + s[n + 1..]);
      TotalAppend([s[n]], s[n + 1..]);
      TotalAppend([Shrink(s[n], Leftover(s, m))], s[n + 1..]);
    }
  }

  /** The segments before `i` add up to at most `m`, and segment `i` (if
      any) is longer than what remains: then `m` bytes consume exactly the
      first `i` segments. */
  lemma {:induction false} SkippedIs(s: seq<Iovec>, m: nat, i: nat)
    requires i <= |s| && Total(s[..i]) <= m
    requires i < |s| ==> m - Total(s[..i]) < s[i].len
    ensures Skipped(s, m) == i && Leftover(s, m) == m - Total(s[..i])
  {
    if i > 0 {
      assert s[..i][0] == s[0] && s[..i][1..] == s[1..][..i - 1];
      if i - 1 < |s[1..]| {
        assert s[1..][i - 1] == s[i];
      }
      SkippedIs(s[1..], m - s[0].len, i - 1);
    }
  }

  /** The prefix total grows by one segment at a time. */
  lemma PrefixTotal(s: seq<Iovec>, i: nat)
    requires i < |s|
    ensures Total(s[..i + 1]) == Total(s[..i]) + s[i].len
  {
    assert s[..i + 1] == s[..i] + [s[i]];
    TotalAppend(s[..i], [s[i]]);
  }

  /** Writing the shrunk segment at `cur + n` leaves a window that starts
      with it and goes on with the untouched rest. */
  lemma ShrunkWindow(a: seq<Iovec>, cur: nat, cnt: nat, n: nat, v: Iovec)
    requires cur + cnt <= |a| && n < cnt
    ensures a[cur + n := v][cur + n..cur + cnt] == [v] + a[cur..cur + cnt][n + 1..]
    ensures a[cur + n := v][..cur] == a[..cur] && a[cur + n := v][cur + cnt..] == a[cur + cnt..]
  {
    var b := a[cur + n := v];
    assert b[..cur] == a[..cur];
    assert b[cur + cnt..] == a[cur + cnt..];
    assert b[cur + n..cur + cnt] == [v] + a[cur..cur + cnt][n + 1..];
  }

  /** What move_iov leaves behind: its return value, the cursor and the segment array. */
  datatype Moved = Moved(ret: int, cur: nat, cnt: nat, iovs: seq<Iovec>)

  /** move_iov over the whole segment array `a`, the cursor being `cur`/`cnt`:
      -1 on zero segments and on exhaustion alike; otherwise the first
      segment the move does not consume is shrunk by the leftover, 0. */
  function Move(a: seq<Iovec>, cur: nat, cnt: nat, m: nat): Moved
    requires cur + cnt <= |a|
  {
    var s := a[cur..cur + cnt];
    var n := Skipped(s, m);
    if cnt == 0 then Moved(-1, cur, cnt, a)
    else if n == cnt then Moved(-1, cur + cnt, 0, a)
    else Moved(0, cur + n, cnt - n, a[cur + n := Shrink(s[n], Leftover(s, m))])
  }

  /** The cursor after the move delimits exactly the segments still to be
      moved, and the window stays inside the original one. */
  lemma MoveAdvances(a: seq<Iovec>, cur: nat, cnt: nat, m: nat)
    requires cur + cnt <= |a|
    ensures var r := Move(a, cur, cnt, m);
            && |r.iovs| == |a| && r.cur + r.cnt == cur + cnt && cur <= r.cur
            && r.iovs[r.cur..r.cur + r.cnt] == Advance(a[cur..cur + cnt], m)
            && r.iovs[..cur] == a[..cur] && r.iovs[cur + cnt..] == a[cur + cnt..]
  {
    var s := a[cur..cur + cnt];
    var n := Skipped(s, m);
    var r := Move(a, cur, cnt, m);
    if cnt == 0 {
      assert r.iovs == a && r.cur == cur && r.cnt == 0;
    } else if n == cnt {
      assert r.iovs == a && r.cur == cur + cnt && r.cnt == 0;
      assert Advance(s, m) == [];
    } else {
      var v := Shrink(s[n], Leftover(s, m));
      assert r.iovs == a[cur + n := v] && r.cur == cur + n && r.cnt == cnt - n;
      assert Advance(s, m) == [v] + s[n + 1..];
      ShrunkWindow(a, cur, cnt, n, v);
    }
  }

  /** move_iov: `cur`/`cnt` are the `iov` pointer and `iov_cnt` reference
      parameters; the returned pair is their new value. */
  method MoveIov(iov: array<Iovec>, cur: nat, cnt: nat, moveSize: nat)
    returns (ret: int, newCur: nat, newCnt: nat)
    requires cur + cnt <= iov.Length
    modifies iov
    ensures Moved(ret, newCur, newCnt, iov[..]) == Move(old(iov[..]), cur, cnt, moveSize)
  {
    ghost var s := iov[cur..cur + cnt];
    if cnt == 0 {
      return -1, cur, cnt;
    }
    newCur, newCnt := cur, cnt;
    var rest: nat := moveSize;
    var i := 0;
    while i < cnt
      invariant 0 <= i <= cnt
      invariant newCur == cur + i && newCnt == cnt - i
      invariant iov[..] == old(iov[..])
      invariant Total(s[..i]) + rest == moveSize
    {
      assert iov[newCur] == s[i];
      if rest >= iov[newCur].len {
        PrefixTotal(s, i);
        rest := rest - iov[newCur].len;
        newCur := newCur + 1;
        newCnt := newCnt - 1;
        i := i + 1;
      } else {
        SkippedIs(s, moveSize, i);
        iov[newCur] := Iovec(iov[newCur].base + rest, iov[newCur].len - rest);
        assert iov[..] == old(iov[..])[newCur := Shrink(s[i], rest)];
        return 0, newCur, newCnt;
      }
    }
    SkippedIs(s, moveSize, cnt);
    ret := -1;
  }

  /** The -1 of an empty cursor and the -1 of an exhausted one cannot be told apart. */
  method MinusOneIsAmbiguous(iov: array<Iovec>, moveSize: nat)
    returns (emptyRet: int, fullRet: int)
    requires Total(iov[..]) <= moveSize
    modifies iov
    ensures emptyRet == fullRet == -1
  {
    ExhaustedIff(iov[..], moveSize);
    assert iov[0..iov.Length] == iov[..];
    var c, n;
    emptyRet, c, n := MoveIov(iov, 0, 0, moveSize);
    fullRet, c, n := MoveIov(iov, 0, iov.Length, moveSize);
  }
}
