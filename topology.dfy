/** The implicit D-ary tree over heap slots: parent and first-child arithmetic. */
module Topology {

  /** Java's integer division for a positive divisor: it truncates toward zero. */
  function JavaDiv(a: int, b: int): (q: int)
    requires b > 0
    ensures a >= 0 ==> 0 <= a - q * b < b
    ensures a < 0 ==> -b < a - q * b <= 0
  {
    if a >= 0 then a / b else -((-a) / b)
  }

  /** The first child slot of slot `s`, as tabulated in `ch`. */
  function FirstChild(s: int, d: int): int
  {
    s * d + 1
  }

  /** The parent slot of slot `s`, as tabulated in `par`; the root is its own parent. */
  function Parent(s: int, d: int): (p: int)
    requires s >= 0 && d >= 2
    ensures s == 0 ==> p == 0
    ensures s > 0 ==> 0 <= p < s
  {
    JavaDiv(s - 1, d)
  }

  /** Slot s > 0 lies in its parent's block of d child slots. */
  lemma ParentBlock(s: int, d: int)
    requires s > 0 && d >= 2
    ensures FirstChild(Parent(s, d), d) <= s < FirstChild(Parent(s, d), d) + d
  {
  }

  /** Children come after their parent. */
  lemma ChildAfterParent(s: int, d: int)
    requires s >= 0 && d >= 2
    ensures FirstChild(s, d) > s
  {
    assert s * d >= s * 1;
  }

  /** Slot `c` is a child of slot `p` exactly when it lies in p's block of `d` child slots. */
  lemma ChildOf(p: int, c: int, d: int)
    requires p >= 0 && c >= 0 && d >= 2
    ensures (c > 0 && Parent(c, d) == p) <==> FirstChild(p, d) <= c < FirstChild(p, d) + d
  {
    ChildAfterParent(p, d);
    if FirstChild(p, d) <= c < FirstChild(p, d) + d {
      var q := Parent(c, d);
      ParentBlock(c, d);
      MulMonotone(q + 1, p, d);
      MulMonotone(p + 1, q, d);
      MulSucc(q, d);
      MulSucc(p, d);
    }
  }

  lemma MulMonotone(a: int, b: int, d: int)
    requires d >= 0
    ensures a <= b ==> a * d <= b * d
  {
    if a <= b {
      assert (b - a) * d >= 0;
      assert b * d == a * d + (b - a) * d;
    }
  }

  lemma MulSucc(a: int, d: int)
    ensures (a + 1) * d == a * d + d
  {
  }
}
