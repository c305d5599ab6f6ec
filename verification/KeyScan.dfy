/** The cancelling pass of dtop_keyboard_handler (kernel/chips/dtop_handlers.c):
    one sweep over two successive scans of the keys held down. */
module KeyScan {

  type Byte = x: int | 0 <= x < 256

  const EMPTY: Byte := 0
  const OUT_ERR: Byte := 1
  const KEY_MIN: Byte := 8
  const MAX_CODES: nat := 11

  // ---- what the pass computes ----

  /** Position of the first c, or the length. */
  function Find(s: seq<Byte>, c: Byte): (k: nat)
    ensures k <= |s| && (k < |s| ==> s[k] == c)
  {
    if s == [] || s[0] == c then 0 else 1 + Find(s[1..], c)
  }

  /** Both scans after the pass: each old code is sought behind the last match
      and erased on both sides when found. */
  function Pass(last: seq<Byte>, new_: seq<Byte>): (r: (seq<Byte>, seq<Byte>))
    ensures |r.0| == |last| && |r.1| == |new_|
  {
    if last == [] then ([], new_)
    else
      var k := Find(new_, last[0]);
      if k < |new_| then
        var rest := Pass(last[1..], new_[k + 1..]);
        ([EMPTY] + rest.0, new_[..k] + [EMPTY] + rest.1)
      else
        var rest := Pass(last[1..], new_);
        ([last[0]] + rest.0, rest.1)
  }

  // ---- what it is meant to compute ----

  function Codes(s: seq<Byte>): set<Byte> {
    if s == [] then {} else {s[0]} + Codes(s[1..])
  }

  /** s with the codes of t erased. */
  function Minus(s: seq<Byte>, t: set<Byte>): (r: seq<Byte>)
    ensures |r| == |s| && forall i :: 0 <= i < |s| ==> r[i] == if s[i] in t then EMPTY else s[i]
  {
    if s == [] then [] else [if s[0] in t then EMPTY else s[0]] + Minus(s[1..], t)
  }

  predicate Distinct(s: seq<Byte>) {
    s != [] ==> s[0] !in Codes(s[1..]) && Distinct(s[1..])
  }

  /** Codes in both scans keep their order; where an empty slot comes after
      others in the last scan does not matter. */
  ghost predicate InOrder(last: seq<Byte>, new_: seq<Byte>) {
    forall i, j, p, q :: (0 <= i < j < |last| && 0 <= p < |new_| && 0 <= q < |new_|
      && new_[p] == last[i] && new_[q] == last[j] && last[j] != EMPTY) ==> p < q
  }

  // ---- codes and positions ----

  lemma {:induction false} CodeAt(s: seq<Byte>, i: nat)
    requires i < |s|
    ensures s[i] in Codes(s)
  {
    if i > 0 {
      CodeAt(s[1..], i - 1);
    }
  }

  lemma {:induction false} IndexOf(s: seq<Byte>, c: Byte) returns (i: nat)
    requires c in Codes(s)
    ensures i < |s| && s[i] == c
  {
    i := 0;
    if s[0] != c {
      i := IndexOf(s[1..], c);
      i := i + 1;
    }
  }

  lemma {:induction false} CodesParts(s: seq<Byte>, t: seq<Byte>)
    ensures Codes(s + t) == Codes(s) + Codes(t)
  {
    if s == [] {
      assert s + t == t;
    } else {
      assert (s + t)[1..] == s[1..] + t;
      CodesParts(s[1..], t);
    }
  }

  lemma {:induction false} DistinctAt(s: seq<Byte>, i: nat, j: nat)
    requires Distinct(s) && i < j < |s|
    ensures s[i] != s[j]
  {
    if i == 0 {
      CodeAt(s[1..], j - 1);
    } else {
      DistinctAt(s[1..], i - 1, j - 1);
    }
  }

  lemma {:induction false} DistinctTail(s: seq<Byte>, k: nat)
    requires Distinct(s) && k <= |s|
    ensures Distinct(s[k..])
  {
    if k > 0 {
      DistinctTail(s[1..], k - 1);
      assert s[k..] == s[1..][k - 1..];
    }
  }

  lemma {:induction false} FindDistinct(s: seq<Byte>, k: nat)
    requires Distinct(s) && k < |s|
    ensures Find(s, s[k]) == k
  {
    if k > 0 {
      DistinctAt(s, 0, k);
      FindDistinct(s[1..], k - 1);
    }
  }

  lemma {:induction false} NotFound(s: seq<Byte>, c: Byte)
    ensures Find(s, c) < |s| <==> c in Codes(s)
  {
    if s != [] {
      NotFound(s[1..], c);
    }
  }

  // ---- set differences ----

  lemma {:induction false} SameMinus(s: seq<Byte>, t: set<Byte>, u: set<Byte>)
    requires forall c :: c in Codes(s) && c != EMPTY ==> (c in t <==> c in u)
    ensures Minus(s, t) == Minus(s, u)
  {
    if s != [] {
      SameMinus(s[1..], t, u);
    }
  }

  lemma {:induction false} Untouched(s: seq<Byte>, t: set<Byte>)
    requires forall c :: c in Codes(s) && c != EMPTY ==> c !in t
    ensures Minus(s, t) == s
  {
    if s != [] {
      Untouched(s[1..], t);
    }
  }

  lemma {:induction false} MinusParts(s: seq<Byte>, t: seq<Byte>, u: set<Byte>)
    ensures Minus(s + t, u) == Minus(s, u) + Minus(t, u)
  {
    if s == [] {
      assert s + t == t;
    } else {
      assert (s + t)[1..] == s[1..] + t;
      MinusParts(s[1..], t, u);
    }
  }

  // ---- order suffices ----

  /** A new code before the match of the first old code is no old code. */
  lemma BeforeMatch(last: seq<Byte>, new_: seq<Byte>, k: nat, c: Byte)
    requires Distinct(new_) && InOrder(last, new_)
    requires last != [] && k < |new_| && new_[k] == last[0]
    requires c in Codes(new_[..k]) && c != EMPTY
    ensures c !in Codes(last)
  {
    var p := IndexOf(new_[..k], c);
    if c in Codes(last) {
      var i := IndexOf(last, c);
      DistinctAt(new_, p, k);
    }
  }

  lemma TailInOrder(last: seq<Byte>, new_: seq<Byte>, k: nat)
    requires InOrder(last, new_) && last != [] && k <= |new_|
    ensures InOrder(last[1..], new_[k..])
  {
    var rest := new_[k..];
    forall i, j, p, q | (0 <= i < j < |last[1..]| && 0 <= p < |rest| && 0 <= q < |rest|
      && rest[p] == last[1..][i] && rest[q] == last[1..][j] && last[1..][j] != EMPTY) ensures p < q
    {
      assert new_[k + p] == last[i + 1] && new_[k + q] == last[j + 1];
    }
  }

  lemma {:induction false} OrderSuffices(last: seq<Byte>, new_: seq<Byte>)
    requires Distinct(last) && Distinct(new_) && InOrder(last, new_)
    ensures Pass(last, new_) == (Minus(last, Codes(new_)), Minus(new_, Codes(last)))
  {
    if last == [] {
      Untouched(new_, {});
    } else {
      var k := Find(new_, last[0]);
      NotFound(new_, last[0]);
      assert Distinct(last[1..]);
      hide InOrder, Distinct, Find;
      if k < |new_| {
        TailInOrder(last, new_, k + 1);
        DistinctTail(new_, k + 1);
        OrderSuffices(last[1..], new_[k + 1..]);
        LastSide(last, new_, k);
        NewSide(last, new_, k);
      } else {
        TailInOrder(last, new_, 0);
        assert new_[0..] == new_;
        OrderSuffices(last[1..], new_);
        SameMinus(new_, Codes(last), Codes(last[1..]));
      }
    }
  }

  lemma NewSide(last: seq<Byte>, new_: seq<Byte>, k: nat)
    requires Distinct(new_) && InOrder(last, new_)
    requires last != [] && k < |new_| && new_[k] == last[0]
    ensures Minus(new_, Codes(last)) == new_[..k] + [EMPTY] + Minus(new_[k + 1..], Codes(last[1..]))
  {
    var c, before, tail := last[0], new_[..k], new_[k + 1..];
    assert new_ == before + [c] + tail;
    forall x | x in Codes(before) && x != EMPTY ensures x !in Codes(last) {
      BeforeMatch(last, new_, k, x);
    }
    TailLacks(new_, k);
    hide InOrder, Distinct;
    Untouched(before, Codes(last));
    SameMinus(tail, Codes(last), Codes(last[1..]));
    MinusParts(before + [c], tail, Codes(last));
    MinusParts(before, [c], Codes(last));
    assert Minus([c], Codes(last)) == [EMPTY];
  }

  lemma LastSide(last: seq<Byte>, new_: seq<Byte>, k: nat)
    requires Distinct(last) && Distinct(new_) && InOrder(last, new_)
    requires last != [] && k < |new_| && new_[k] == last[0]
    ensures Minus(last, Codes(new_)) == [EMPTY] + Minus(last[1..], Codes(new_[k + 1..]))
  {
    var c, before, tail := last[0], new_[..k], new_[k + 1..];
    assert new_ == before + [c] + tail;
    CodesParts(before + [c], tail);
    CodesParts(before, [c]);
    forall x | x in Codes(last[1..]) && x != EMPTY ensures x !in Codes(before) {
      if x in Codes(before) { BeforeMatch(last, new_, k, x); }
    }
    hide InOrder;
    SameMinus(last[1..], Codes(new_), Codes(tail));
  }

  lemma TailLacks(s: seq<Byte>, k: nat)
    requires Distinct(s) && k < |s|
    ensures s[k] !in Codes(s[k + 1..])
  {
    DistinctTail(s, k);
    assert s[k..][1..] == s[k + 1..];
  }

  // ---- order is needed ----

  lemma {:induction false} PassShrinks(last: seq<Byte>, new_: seq<Byte>, i: nat)
    requires i < |last| && last[i] !in Codes(new_)
    ensures Pass(last, new_).0[i] == last[i]
  {
    var k := Find(new_, last[0]);
    NotFound(new_, last[0]);
    if i > 0 {
      if k < |new_| {
        TailCodes(new_, k + 1);
        PassShrinks(last[1..], new_[k + 1..], i - 1);
      } else {
        PassShrinks(last[1..], new_, i - 1);
      }
    }
  }

  lemma TailCodes(s: seq<Byte>, k: nat)
    requires k <= |s|
    ensures Codes(s[k..]) <= Codes(s)
  {
    CodesParts(s[..k], s[k..]);
    assert s == s[..k] + s[k..];
  }

  /** Where the pass goes on after the first old code. */
  function Rest(new_: seq<Byte>, c: Byte): seq<Byte> {
    var k := Find(new_, c);
    if k < |new_| then new_[k + 1..] else new_
  }

  /** When the pass does erase every shared code, the later ones lie in the rest. */
  lemma SharedInRest(last: seq<Byte>, new_: seq<Byte>, j: nat)
    requires 0 < j < |last| && last[j] != EMPTY && last[j] in Codes(new_)
    requires Pass(last, new_).0 == Minus(last, Codes(new_))
    ensures last[j] in Codes(Rest(new_, last[0]))
  {
    var rest := Rest(new_, last[0]);
    assert Pass(last, new_).0[j] == EMPTY;
    assert Pass(last, new_).0[j] == Pass(last[1..], rest).0[j - 1];
    if last[j] !in Codes(rest) {
      PassShrinks(last[1..], rest, j - 1);
    }
  }

  lemma {:induction false} OrderIsNeeded(last: seq<Byte>, new_: seq<Byte>)
    requires Distinct(new_)
    requires Pass(last, new_).0 == Minus(last, Codes(new_))
    ensures InOrder(last, new_)
  {
    if last != [] {
      var k := Find(new_, last[0]);
      var rest := Rest(new_, last[0]);
      forall c | c in Codes(last[1..]) && c != EMPTY ensures c in Codes(new_) <==> c in Codes(rest) {
        var i := IndexOf(last[1..], c);
        if c in Codes(new_) { SharedInRest(last, new_, i + 1); }
        TailCodes(new_, |new_| - |rest|);
      }
      SameMinus(last[1..], Codes(new_), Codes(rest));
      assert Pass(last[1..], rest).0 == Pass(last, new_).0[1..];
      DistinctTail(new_, |new_| - |rest|);
      OrderIsNeeded(last[1..], rest);
      Lifted(last, new_, rest, k);
    }
  }

  lemma Lifted(last: seq<Byte>, new_: seq<Byte>, rest: seq<Byte>, k: nat)
    requires Distinct(new_) && last != [] && k == Find(new_, last[0])
    requires rest == Rest(new_, last[0]) && InOrder(last[1..], rest)
    requires forall c :: c in Codes(last[1..]) && c != EMPTY ==> (c in Codes(new_) <==> c in Codes(rest))
    ensures InOrder(last, new_)
  {
    var cut := |new_| - |rest|;
    forall i, j, p, q | (0 <= i < j < |last| && 0 <= p < |new_| && 0 <= q < |new_|
      && new_[p] == last[i] && new_[q] == last[j] && last[j] != EMPTY) ensures p < q
    {
      CodeAt(last[1..], j - 1);
      CodeAt(new_, q);
      LiesBehind(new_, rest, cut, q);
      if i == 0 {
        FindDistinct(new_, p);
      } else if p >= cut {
        assert rest[p - cut] == last[1..][i - 1] && rest[q - cut] == last[1..][j - 1];
      }
    }
  }

  lemma LiesBehind(new_: seq<Byte>, rest: seq<Byte>, cut: nat, q: nat)
    requires Distinct(new_) && cut <= |new_| && rest == new_[cut..] && q < |new_| && new_[q] in Codes(rest)
    ensures cut <= q
  {
    var t := IndexOf(rest, new_[q]);
    FindDistinct(new_, cut + t);
    FindDistinct(new_, q);
  }

  /** The one-pass cancel is the plain set difference exactly when the shared
      codes kept their order. */
  lemma PassIsDifference(last: seq<Byte>, new_: seq<Byte>)
    requires Distinct(last) && Distinct(new_)
    ensures Pass(last, new_) == (Minus(last, Codes(new_)), Minus(new_, Codes(last))) <==> InOrder(last, new_)
  {
    if InOrder(last, new_) {
      OrderSuffices(last, new_);
    }
    if Pass(last, new_).0 == Minus(last, Codes(new_)) {
      OrderIsNeeded(last, new_);
    }
  }

  /** Two keys reported in the other order look released and pressed again. */
  lemma SwappedKeysFail()
    ensures Pass([30, 40], [40, 30]).0 == [EMPTY, 40] && Pass([30, 40], [40, 30]).1 == [40, EMPTY]
    ensures Minus([30, 40], Codes([40, 30])) == [EMPTY, EMPTY]
  {
    var a: seq<Byte>, b: seq<Byte>, c: seq<Byte> := [30, 40], [40, 30], [30];
    var d: seq<Byte>, none: seq<Byte> := [40], [];
    assert b[1..] == c && c[1..] == none && Find(c, 30) == 0;
    assert b[0] == 40 && Find(b, 30) == 1 + Find(b[1..], 30);
    assert a[1..] == d && b[2..] == none && d[1..] == none;
    assert Pass(none, none) == (none, none) && Find(none, 40) == 0;
    assert Pass(d, none).0 == [40] + none == d && Pass(d, none).1 == none;
    assert Pass(a, b).0 == [EMPTY] + d && Pass(a, b).1 == b[..1] + [EMPTY] + none;
    assert Codes(c) == {30} && Codes(b) == {40, 30};
    assert Minus(a, Codes(b)) == [EMPTY, EMPTY];
  }
}
