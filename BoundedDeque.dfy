/** A Python `collections.deque(maxlen=cap)` used only through `append`:
    a FIFO window that keeps the most recent `cap` items, the oldest item
    being dropped when a full deque receives a new one. */
module BoundedDeque {

  /** The last `cap` items of `s` (all of `s` when it is short enough):
      the reference definition of what a bounded deque holds. */
  function Window<T>(s: seq<T>, cap: nat): (r: seq<T>)
    ensures |r| == if |s| <= cap then |s| else cap
  {
    if |s| <= cap then s else s[|s| - cap..]
  }

  /** `deque.append(x)` on a deque bounded by `cap`. */
  function Append<T>(buf: seq<T>, x: T, cap: nat): (r: seq<T>)
    requires 0 < cap && |buf| <= cap
    ensures r == Window(buf + [x], cap)
    ensures |r| <= cap && r[|r| - 1] == x
    ensures |buf| < cap ==> r == buf + [x]
    ensures |buf| == cap ==> r == buf[1..] + [x]
  {
    if |buf| < cap then buf + [x] else buf[1..] + [x]
  }

  /** Appending each of `xs` in order. */
  function AppendAll<T>(buf: seq<T>, xs: seq<T>, cap: nat): (r: seq<T>)
    requires 0 < cap && |buf| <= cap
    ensures |r| <= cap
    decreases |xs|
  {
    if xs == [] then buf else Append(AppendAll(buf, xs[..|xs| - 1], cap), xs[|xs| - 1], cap)
  }

  /** A window of a window is a window of the whole. */
  lemma WindowOfAppend<T>(s: seq<T>, x: T, cap: nat)
    requires 0 < cap
    ensures Window(Window(s, cap) + [x], cap) == Window(s + [x], cap)
  {
    var w := Window(s, cap);
    var lhs := Window(w + [x], cap);
    var rhs := Window(s + [x], cap);
    assert |lhs| == |rhs|;
    forall i | 0 <= i < |lhs| ensures lhs[i] == rhs[i] {
      if i == |lhs| - 1 {
      } else {
        assert lhs[i] == (w + [x])[|w| + 1 - |lhs| + i];
      }
    }
  }

  /** Appending a batch one by one keeps exactly the last `cap` items of
      the old contents followed by the batch, in order. */
  lemma {:induction false} AppendAllIsWindow<T>(buf: seq<T>, xs: seq<T>, cap: nat)
    requires 0 < cap && |buf| <= cap
    ensures AppendAll(buf, xs, cap) == Window(buf + xs, cap)
    decreases |xs|
  {
    if xs == [] {
      assert buf + xs == buf;
      assert Window(buf, cap) == buf;
    } else {
      var init := xs[..|xs| - 1];
      var x := xs[|xs| - 1];
      AppendAllIsWindow(buf, init, cap);
      WindowOfAppend(buf + init, x, cap);
      assert (buf + init) + [x] == buf + xs;
    }
  }

  lemma {:induction false} WindowOfWindow<T>(s: seq<T>, t: seq<T>, cap: nat)
    requires 0 < cap
    ensures Window(Window(s, cap) + t, cap) == Window(s + t, cap)
    decreases |t|
  {
    if t == [] {
      assert Window(s, cap) + t == Window(s, cap);
      assert s + t == s;
      var w := Window(s, cap);
      assert Window(w, cap) == w;
    } else {
      var t' := t[..|t| - 1];
      var x := t[|t| - 1];
      WindowOfWindow(s, t', cap);
      assert Window(s, cap) + t == (Window(s, cap) + t') + [x];
      assert s + t == (s + t') + [x];
      WindowOfAppend(Window(s, cap) + t', x, cap);
      WindowOfAppend(s + t', x, cap);
    }
  }
}
