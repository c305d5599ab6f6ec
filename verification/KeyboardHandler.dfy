/** The receive side of dtop_keyboard_handler over the device's own arrays. */
module KeyboardHandler {
  import opened KeyScan

  /** A call of lk201_input. */
  datatype Stroke = Up(code: Byte) | Down(code: Byte)

  /** The keys a scan reports held. */
  function Held(s: seq<Byte>): set<Byte> {
    set i | 0 <= i < |s| && s[i] != EMPTY :: s[i]
  }

  /** Last code first. */
  function Ups(s: seq<Byte>): seq<Stroke> {
    if s == [] then [] else Ups(s[1..]) + if s[0] == EMPTY then [] else [Up(s[0])]
  }

  function Downs(s: seq<Byte>): seq<Stroke> {
    if s == [] then [] else Downs(s[1..]) + if s[0] == EMPTY then [] else [Down(s[0])]
  }

  /** What a listener that follows the strokes believes to be held. */
  function Played(held: set<Byte>, strokes: seq<Stroke>): set<Byte>
    decreases |strokes|
  {
    if strokes == [] then held else Played(After(held, strokes[0]), strokes[1..])
  }

  function After(held: set<Byte>, stroke: Stroke): set<Byte> {
    match stroke
    case Up(c) => held - {c}
    case Down(c) => held + {c}
  }

  lemma {:induction false} PlayedParts(held: set<Byte>, s: seq<Stroke>, t: seq<Stroke>)
    ensures Played(held, s + t) == Played(Played(held, s), t)
    decreases |s|
  {
    if s == [] {
      assert s + t == t;
    } else {
      assert (s + t)[0] == s[0] && (s + t)[1..] == s[1..] + t;
      PlayedParts(After(held, s[0]), s[1..], t);
    }
  }

  lemma {:induction false} PlayedUps(held: set<Byte>, s: seq<Byte>)
    ensures Played(held, Ups(s)) == held - Held(s)
  {
    if s != [] {
      var one := if s[0] == EMPTY then [] else [Up(s[0])];
      PlayedUps(held, s[1..]);
      PlayedParts(held, Ups(s[1..]), one);
      HeldParts(s);
      assert one != [] ==> one[1..] == [];
    }
  }

  lemma {:induction false} PlayedDowns(held: set<Byte>, s: seq<Byte>)
    ensures Played(held, Downs(s)) == held + Held(s)
  {
    if s != [] {
      var one := if s[0] == EMPTY then [] else [Down(s[0])];
      PlayedDowns(held, s[1..]);
      PlayedParts(held, Downs(s[1..]), one);
      HeldParts(s);
      assert one != [] ==> one[1..] == [];
    }
  }

  lemma HeldParts(s: seq<Byte>)
    requires s != []
    ensures Held(s) == Held(s[1..]) + if s[0] == EMPTY then {} else {s[0]}
  {
    forall c ensures c in Held(s) <==> c in Held(s[1..]) || (s[0] != EMPTY && c == s[0]) {
      if c in Held(s) {
        var i :| 0 <= i < |s| && s[i] != EMPTY && s[i] == c;
        assert i > 0 ==> s[1..][i - 1] == c;
      }
      if c in Held(s[1..]) {
        var i :| 0 <= i < |s[1..]| && s[1..][i] != EMPTY && s[1..][i] == c;
        assert s[i + 1] == c;
      }
    }
  }

  lemma {:induction false} HeldConcat(s: seq<Byte>, t: seq<Byte>)
    ensures Held(s + t) == Held(s) + Held(t)
  {
    if s == [] {
      assert s + t == t;
    } else {
      HeldParts(s);
      HeldParts(s + t);
      assert (s + t)[1..] == s[1..] + t;
      HeldConcat(s[1..], t);
    }
  }

  lemma {:induction false} PassKeepsCodes(last: seq<Byte>, new_: seq<Byte>)
    ensures Held(Pass(last, new_).0) <= Held(last)
  {
    if last != [] {
      var k := Find(new_, last[0]);
      var rest := Pass(last[1..], if k < |new_| then new_[k + 1..] else new_);
      PassKeepsCodes(last[1..], if k < |new_| then new_[k + 1..] else new_);
      HeldParts(last);
      var first := Pass(last, new_).0;
      assert first[1..] == rest.0;
      HeldParts(first);
    }
  }

  lemma {:induction false} HeldCodes(s: seq<Byte>)
    ensures Held(s) == Codes(s) - {EMPTY}
  {
    if s != [] {
      HeldParts(s);
      HeldCodes(s[1..]);
    }
  }

  /** Whatever order the codes come in, old keys minus the released plus the
      pressed ones are the new keys. */
  lemma {:induction false} PassTracksKeys(last: seq<Byte>, new_: seq<Byte>)
    requires Distinct(last)
    ensures Held(last) - Held(Pass(last, new_).0) + Held(Pass(last, new_).1) == Held(new_)
  {
    if last != [] {
      var c, others, k := last[0], last[1..], Find(new_, last[0]);
      assert last == [c] + others && Distinct(others);
      HeldCodes(others);
      assert c !in Held(others);
      hide Held, Distinct, Find, Codes, Pass;
      if k < |new_| {
        var before, tail := new_[..k], new_[k + 1..];
        assert new_ == before + [c] + tail;
        PassMatch(last, new_, k);
        PassTracksKeys(others, tail);
        PassKeepsCodes(others, tail);
        MatchTracks(c, others, before, tail, Pass(others, tail).0, Pass(others, tail).1);
      } else {
        PassMiss(last, new_);
        PassTracksKeys(others, new_);
        PassKeepsCodes(others, new_);
        MissTracks(c, others, new_, Pass(others, new_).0, Pass(others, new_).1);
      }
    }
  }

  lemma PassMatch(last: seq<Byte>, new_: seq<Byte>, k: nat)
    requires last != [] && k == Find(new_, last[0]) < |new_|
    ensures Pass(last, new_).0 == [EMPTY] + Pass(last[1..], new_[k + 1..]).0
    ensures Pass(last, new_).1 == new_[..k] + [EMPTY] + Pass(last[1..], new_[k + 1..]).1
  {
    hide Find;
  }

  lemma PassMiss(last: seq<Byte>, new_: seq<Byte>)
    requires last != [] && Find(new_, last[0]) == |new_|
    ensures Pass(last, new_).0 == [last[0]] + Pass(last[1..], new_).0
    ensures Pass(last, new_).1 == Pass(last[1..], new_).1
  {
    hide Find;
  }

  lemma MatchTracks(c: Byte, others: seq<Byte>, before: seq<Byte>, tail: seq<Byte>, ups: seq<Byte>, downs: seq<Byte>)
    requires c !in Held(others) && Held(ups) <= Held(others) && Held(others) - Held(ups) + Held(downs) == Held(tail)
    ensures Held([c] + others) - Held([EMPTY] + ups) + Held(before + [EMPTY] + downs) == Held(before + [c] + tail)
  {
    HeldThree(before, c, tail);
    HeldThree(before, EMPTY, downs);
    HeldConcat([EMPTY], ups);
    HeldConcat([c], others);
    HeldOne(EMPTY);
    HeldOne(c);
    hide Held;
    Matched(Held([c]), Held(others), Held(ups), Held(downs), Held(before), Held(tail));
  }

  lemma MissTracks(c: Byte, others: seq<Byte>, new_: seq<Byte>, ups: seq<Byte>, downs: seq<Byte>)
    requires c !in Held(others) && Held(ups) <= Held(others) && Held(others) - Held(ups) + Held(downs) == Held(new_)
    ensures Held([c] + others) - Held([c] + ups) + Held(downs) == Held(new_)
  {
    HeldConcat([c], ups);
    HeldConcat([c], others);
    HeldOne(c);
    hide Held;
    Missed(Held([c]), Held(others), Held(ups), Held(downs));
  }

  lemma HeldThree(s: seq<Byte>, c: Byte, t: seq<Byte>)
    ensures Held(s + [c] + t) == Held(s) + Held([c]) + Held(t)
  {
    HeldConcat(s + [c], t);
    HeldConcat(s, [c]);
  }

  lemma Matched(one: set<Byte>, old_: set<Byte>, ups: set<Byte>, downs: set<Byte>, before: set<Byte>, tail: set<Byte>)
    requires one !! old_ && ups <= old_ && old_ - ups + downs == tail
    ensures (old_ + one) - ups + (before + downs) == before + one + tail
  {}

  lemma Missed(one: set<Byte>, old_: set<Byte>, ups: set<Byte>, downs: set<Byte>)
    requires one !! old_ && ups <= old_
    ensures (old_ + one) - (one + ups) + downs == old_ - ups + downs
  {}

  lemma HeldOne(c: Byte)
    ensures Held([c]) == if c == EMPTY then {} else {c}
    ensures Held([EMPTY]) == {}
  {
    assert [c][0] == c;
  }

  /** The strokes of one scan take a listener from the keys of the last scan to
      those of the new one. */
  lemma StrokesTrackKeys(last: seq<Byte>, new_: seq<Byte>)
    requires Distinct(last)
    ensures Played(Held(last), Ups(Pass(last, new_).0) + Downs(Pass(last, new_).1)) == Held(new_)
  {
    var p := Pass(last, new_);
    PlayedParts(Held(last), Ups(p.0), Downs(p.1));
    PlayedUps(Held(last), p.0);
    PlayedDowns(Held(last) - Held(p.0), p.1);
    PassTracksKeys(last, new_);
  }

  // ---- the handler ----

  /** What a listener is told of a scan when no stroke leaves through the
      kernel debugger. */
  function Strokes(last: seq<Byte>, new_: seq<Byte>): seq<Stroke> {
    Ups(Pass(last, new_).0) + Downs(Pass(last, new_).1)
  }

  /** For scans without repetition the strokes are exactly those of the keys held in
      one scan only, in the order of the scans, exactly when the keys held in both
      keep their order. */
  lemma StrokesExactly(last: seq<Byte>, new_: seq<Byte>)
    requires Distinct(last) && Distinct(new_)
    ensures Strokes(last, new_) == Ups(Minus(last, Codes(new_))) + Downs(Minus(new_, Codes(last)))
      <==> InOrder(last, new_)
  {
    PassIsDifference(last, new_);
    var p, gone, come := Pass(last, new_), Minus(last, Codes(new_)), Minus(new_, Codes(last));
    PassErases(last, new_);
    hide InOrder, Pass, Minus, Codes, Ups, Downs, Held;
    if Ups(p.0) + Downs(p.1) == Ups(gone) + Downs(come) {
      forall c ensures c in Held(p.0) <==> c in Held(gone) {
        UpStrokes(p.0, p.1, c);
        UpStrokes(gone, come, c);
      }
      assert Held(p.0) == Held(gone);
      SameErased(last, p.0, gone);
      OrderIsNeeded(last, new_);
    }
  }

  /** Some codes are erased. */
  ghost predicate Erased(s: seq<Byte>, t: seq<Byte>) {
    |t| == |s| && forall i :: 0 <= i < |s| ==> t[i] == s[i] || t[i] == EMPTY
  }

  lemma {:induction false} PassErases(last: seq<Byte>, new_: seq<Byte>)
    ensures Erased(last, Pass(last, new_).0)
  {
    if last != [] {
      var k := Find(new_, last[0]);
      hide Pass, Find;
      if k < |new_| {
        PassMatch(last, new_, k);
        PassErases(last[1..], new_[k + 1..]);
        ErasesFirst(last, EMPTY, Pass(last[1..], new_[k + 1..]).0);
      } else {
        PassMiss(last, new_);
        PassErases(last[1..], new_);
        ErasesFirst(last, last[0], Pass(last[1..], new_).0);
      }
    }
  }

  lemma ErasesFirst(s: seq<Byte>, c: Byte, t: seq<Byte>)
    requires s != [] && Erased(s[1..], t) && (c == s[0] || c == EMPTY)
    ensures Erased(s, [c] + t)
  {
    forall i | 0 < i < |s| ensures ([c] + t)[i] == s[i] || ([c] + t)[i] == EMPTY {
      assert s[i] == s[1..][i - 1];
    }
  }

  /** What is left of a scan without repetition is known by its codes. */
  lemma SameErased(s: seq<Byte>, t: seq<Byte>, u: seq<Byte>)
    requires Distinct(s) && Erased(s, t) && Erased(s, u) && Held(t) == Held(u)
    ensures t == u
  {
    forall i | 0 <= i < |s| ensures t[i] == u[i] {
      if t[i] != EMPTY { StillThere(s, t, u, i); }
      if u[i] != EMPTY { StillThere(s, u, t, i); }
    }
  }

  lemma StillThere(s: seq<Byte>, t: seq<Byte>, u: seq<Byte>, i: nat)
    requires Distinct(s) && Erased(s, t) && Erased(s, u) && Held(t) == Held(u) && i < |s| && t[i] != EMPTY
    ensures u[i] == t[i]
  {
    assert t[i] in Held(t);
    var j :| 0 <= j < |u| && u[j] != EMPTY && u[j] == t[i];
    if i < j { DistinctAt(s, i, j); }
    if j < i { DistinctAt(s, j, i); }
  }

  lemma UpStrokes(s: seq<Byte>, t: seq<Byte>, c: Byte)
    ensures Up(c) in Ups(s) + Downs(t) <==> c in Held(s)
  {
    UpsOf(s, c);
    NoUps(t, c);
  }

  lemma DownStrokes(s: seq<Byte>, t: seq<Byte>, c: Byte)
    ensures Down(c) in Ups(s) + Downs(t) <==> c in Held(t)
  {
    DownsOf(t, c);
    NoDowns(s, c);
  }

  lemma {:induction false} DownsOf(s: seq<Byte>, c: Byte)
    ensures Down(c) in Downs(s) <==> c in Held(s)
  {
    if s != [] {
      DownsOf(s[1..], c);
      HeldParts(s);
    }
  }

  lemma {:induction false} NoDowns(s: seq<Byte>, c: Byte)
    ensures Down(c) !in Ups(s)
  {
    if s != [] {
      NoDowns(s[1..], c);
    }
  }

  lemma HeldMinus(s: seq<Byte>, t: set<Byte>, c: Byte)
    ensures c in Held(Minus(s, t)) <==> c in Held(s) && c !in t
  {
    var m := Minus(s, t);
    hide Minus;
    if c in Held(s) && c !in t {
      var i :| 0 <= i < |s| && s[i] != EMPTY && s[i] == c;
      assert m[i] == c;
    }
    if c in Held(m) {
      var i :| 0 <= i < |m| && m[i] != EMPTY && m[i] == c;
      assert s[i] == c;
    }
  }

  /** When the keys held in both scans keep their order, a key is released exactly
      when it is held in the last scan only, and pressed when in the new one only. */
  lemma OnlyChangedKeys(last: seq<Byte>, new_: seq<Byte>, c: Byte)
    requires Distinct(last) && Distinct(new_) && InOrder(last, new_)
    ensures Up(c) in Strokes(last, new_) <==> c in Held(last) && c !in Held(new_)
    ensures Down(c) in Strokes(last, new_) <==> c in Held(new_) && c !in Held(last)
  {
    PassIsDifference(last, new_);
    var p := Pass(last, new_);
    hide InOrder, Distinct, Pass, Minus, Codes, Ups, Downs, Held;
    UpStrokes(p.0, p.1, c);
    DownStrokes(p.0, p.1, c);
    HeldMinus(last, Codes(new_), c);
    HeldMinus(new_, Codes(last), c);
    HeldCodes(last);
    HeldCodes(new_);
  }

  lemma {:induction false} UpsOf(s: seq<Byte>, c: Byte)
    ensures Up(c) in Ups(s) <==> c in Held(s)
  {
    if s != [] {
      UpsOf(s[1..], c);
      HeldParts(s);
    }
  }

  lemma {:induction false} NoUps(s: seq<Byte>, c: Byte)
    ensures Up(c) !in Downs(s)
  {
    if s != [] {
      NoUps(s[1..], c);
    }
  }

  // ---- the order of strokes ----

  /** No code of s makes lk201_input return from the debugger. */
  predicate NoneIn(s: seq<Byte>, kdb: set<Byte>) {
    forall i :: 0 <= i < |s| && s[i] != EMPTY ==> s[i] !in kdb
  }

  /** The stroke of code j, the last such, ends in the debugger. */
  ghost predicate BreaksAt(s: seq<Byte>, kdb: set<Byte>, j: nat) {
    j < |s| && s[j] != EMPTY && s[j] in kdb && NoneIn(s[j + 1..], kdb)
  }

  function Code(stroke: Stroke): Byte {
    match stroke
    case Up(c) => c
    case Down(c) => c
  }

  /** The strokes stand for codes of the scan, from places ever closer to its front. */
  ghost predicate FromEnd(scan: seq<Byte>, strokes: seq<Stroke>, at: seq<nat>) {
    && |at| == |strokes|
    && (forall a: nat :: a < |at| ==> at[a] < |scan| && scan[at[a]] == Code(strokes[a]) != EMPTY)
    && (forall a: nat, b: nat :: a < b < |at| ==> at[a] > at[b])
  }

  /** First n upstrokes of the last scan, then downstrokes of the new one. */
  ghost predicate Sorted(last: seq<Byte>, new_: seq<Byte>, strokes: seq<Stroke>, n: nat, up: seq<nat>, down: seq<nat>) {
    && n <= |strokes|
    && (forall a: nat :: a < |strokes| ==> (strokes[a].Up? <==> a < n))
    && FromEnd(last, strokes[..n], up) && FromEnd(new_, strokes[n..], down)
  }

  ghost predicate OldestFirst(last: seq<Byte>, new_: seq<Byte>, strokes: seq<Stroke>) {
    exists n: nat, up: seq<nat>, down: seq<nat> :: Sorted(last, new_, strokes, n, up, down)
  }

  function Shifted(at: seq<nat>, k: nat): (r: seq<nat>)
    ensures |r| == |at| && forall a: nat :: a < |at| ==> r[a] == at[a] + k
  {
    seq(|at|, a requires 0 <= a < |at| => at[a] + k)
  }

  lemma {:induction false} UpsFromEnd(s: seq<Byte>) returns (at: seq<nat>)
    ensures FromEnd(s, Ups(s), at) && forall a: nat :: a < |Ups(s)| ==> Ups(s)[a].Up?
  {
    at := [];
    if s != [] {
      var rest := UpsFromEnd(s[1..]);
      at := Shifted(rest, 1) + if s[0] == EMPTY then [] else [0];
    }
  }

  lemma {:induction false} DownsFromEnd(s: seq<Byte>) returns (at: seq<nat>)
    ensures FromEnd(s, Downs(s), at) && forall a: nat :: a < |Downs(s)| ==> Downs(s)[a].Down?
  {
    at := [];
    if s != [] {
      var rest := DownsFromEnd(s[1..]);
      at := Shifted(rest, 1) + if s[0] == EMPTY then [] else [0];
    }
  }

  lemma {:induction false} PassErasesNew(last: seq<Byte>, new_: seq<Byte>)
    ensures Erased(new_, Pass(last, new_).1)
  {
    if last != [] {
      var k := Find(new_, last[0]);
      hide Pass, Find;
      if k < |new_| {
        PassMatch(last, new_, k);
        PassErasesNew(last[1..], new_[k + 1..]);
        ErasesBehind(new_, k, Pass(last[1..], new_[k + 1..]).1);
      } else {
        PassMiss(last, new_);
        PassErasesNew(last[1..], new_);
      }
    }
  }

  lemma ErasesBehind(s: seq<Byte>, k: nat, t: seq<Byte>)
    requires k < |s| && Erased(s[k + 1..], t)
    ensures Erased(s, s[..k] + [EMPTY] + t)
  {
    var u := s[..k] + [EMPTY] + t;
    forall i | k < i < |s| ensures u[i] == s[i] || u[i] == EMPTY {
      assert u[i] == t[i - k - 1] && s[i] == s[k + 1..][i - k - 1];
    }
  }

  /** Upstrokes of what is left of the last scan and downstrokes of the end of what is
      left of the new one: the ups first, and each kind in the order of age. */
  lemma StrokesOldestFirst(last: seq<Byte>, new_: seq<Byte>, j: nat)
    requires j <= |Pass(last, new_).1|
    ensures OldestFirst(last, new_, Ups(Pass(last, new_).0) + Downs(Pass(last, new_).1[j..]))
  {
    var gone, come := Pass(last, new_).0, Pass(last, new_).1;
    PassErases(last, new_);
    PassErasesNew(last, new_);
    hide Pass, Ups, Downs;
    var up := UpsFromEnd(gone);
    var down := DownsFromEnd(come[j..]);
    var strokes, n := Ups(gone) + Downs(come[j..]), |Ups(gone)|;
    assert strokes[..n] == Ups(gone) && strokes[n..] == Downs(come[j..]);
    assert FromEnd(last, strokes[..n], up);
    assert FromEnd(new_, strokes[n..], Shifted(down, j));
    assert Sorted(last, new_, strokes, n, up, Shifted(down, j));
  }

  /** So they come, whether or not one of them ends in the debugger. */
  lemma InOrderOfAge(last: seq<Byte>, new_: seq<Byte>, kdb: set<Byte>, strokes: seq<Stroke>, broke: bool)
    requires !broke ==> strokes == Strokes(last, new_)
    requires broke ==>
      exists j: nat ::
        BreaksAt(Pass(last, new_).1, kdb, j) && strokes == Ups(Pass(last, new_).0) + Downs(Pass(last, new_).1[j..])
    ensures OldestFirst(last, new_, strokes)
  {
    hide OldestFirst, Pass, Ups, Downs;
    if broke {
      var j: nat :| BreaksAt(Pass(last, new_).1, kdb, j)
        && strokes == Ups(Pass(last, new_).0) + Downs(Pass(last, new_).1[j..]);
      StrokesOldestFirst(last, new_, j);
    } else {
      StrokesOldestFirst(last, new_, 0);
      assert Pass(last, new_).1[0..] == Pass(last, new_).1;
    }
  }

  /** Of a scan without repetition, no stroke is given twice. */
  lemma EachOnce(last: seq<Byte>, new_: seq<Byte>, strokes: seq<Stroke>, a: nat, b: nat)
    requires Distinct(last) && Distinct(new_) && OldestFirst(last, new_, strokes)
    requires a < b < |strokes|
    ensures strokes[a] != strokes[b] && (strokes[b].Up? ==> strokes[a].Up?)
  {
    var n: nat, up: seq<nat>, down: seq<nat> :| Sorted(last, new_, strokes, n, up, down);
    if strokes[a] == strokes[b] {
      if b < n {
        assert strokes[..n][a] == strokes[a] && strokes[..n][b] == strokes[b];
        DistinctAt(last, up[b], up[a]);
      } else {
        assert strokes[n..][a - n] == strokes[a] && strokes[n..][b - n] == strokes[b];
        DistinctAt(new_, down[b - n], down[a - n]);
      }
    }
  }

  /** A packet that is not an error report, or reports an overflow only. */
  predicate Acceptable(first: Byte) {
    first >= KEY_MIN || first == EMPTY || first == OUT_ERR
  }

  /** An overflow report is no code. */
  function Cleaned(codes: seq<Byte>): seq<Byte> {
    if codes != [] && EMPTY != codes[0] < KEY_MIN then codes[0 := EMPTY] else codes
  }

  class Keyboard {
    const lastCodes: array<Byte>
    var lastCodesCount: nat

    ghost predicate Valid()
      reads this
    {
      lastCodes.Length == MAX_CODES && lastCodesCount <= MAX_CODES
    }

    ghost function Codes(): seq<Byte>
      requires Valid()
      reads this, lastCodes
    {
      lastCodes[..lastCodesCount]
    }

    constructor ()
      ensures Valid() && Codes() == [] && fresh(lastCodes)
    {
      lastCodes := new Byte[MAX_CODES](_ => EMPTY);
      lastCodesCount := 0;
    }

    /** One packet of `len` codes. The codes in kdb are those for which
        lk201_input comes back from the kernel debugger. */
    method Receive(body: array<Byte>, len: nat, kdb: set<Byte>) returns (strokes: seq<Stroke>)
      requires Valid() && len <= MAX_CODES && len <= body.Length && 0 < body.Length && body != lastCodes
      modifies this`lastCodesCount, lastCodes, body
      ensures Valid()
      ensures !Acceptable(old(body[0])) ==> strokes == [] && Codes() == old(Codes())
      ensures Acceptable(old(body[0])) ==>
        var last, new_ := old(Codes()), Cleaned(old(body[..len]));
        var down := Pass(last, new_).1;
        if NoneIn(down, kdb) then Codes() == new_ && strokes == Strokes(last, new_)
        else
          && Codes() == [EMPTY]
          && exists j: nat :: BreaksAt(down, kdb, j) && strokes == Ups(Pass(last, new_).0) + Downs(down[j..])
      ensures Acceptable(old(body[0])) ==> OldestFirst(old(Codes()), Cleaned(old(body[..len])), strokes)
    {
      var first := body[0];
      if first < KEY_MIN && first != EMPTY {
        if first != OUT_ERR { return []; }
        body[0] := EMPTY;
      }
      ghost var last, new_ := Codes(), body[..len];
      assert new_ == Cleaned(old(body[..len]));
      hide OldestFirst, Pass, Ups, Downs, Cleaned, NoneIn, BreaksAt;
      var save := body[..len];
      Cancel(body, len);
      strokes := Released();
      var rest, broke := Pressed(body, len, kdb);
      strokes := strokes + rest;
      InOrderOfAge(last, new_, kdb, strokes, broke);
      if broke {
        lastCodesCount := 1;
        lastCodes[0] := EMPTY;
        return;
      }
      var i := 0;
      while i < len
        invariant 0 <= i <= len && lastCodes[..i] == save[..i]
        modifies lastCodes
      {
        lastCodes[i] := save[i];
        i := i + 1;
      }
      lastCodesCount := len;
    }

    /** The cancelling pass, with `sync` behind the last match. */
    method Cancel(body: array<Byte>, len: nat)
      requires Valid() && len <= body.Length && body != lastCodes
      modifies lastCodes, body
      ensures Codes() == Pass(old(Codes()), old(body[..len])).0
      ensures body[..len] == Pass(old(Codes()), old(body[..len])).1
    {
      ghost var last, new_ := Codes(), body[..len];
      var ls, sync: nat := 0, 0;
      PartlyStart(last, new_);
      hide Partly;
      while ls < lastCodesCount
        invariant 0 <= ls <= lastCodesCount && sync <= len
        invariant Partly(last, new_, Codes(), body[..len], ls, sync)
        modifies lastCodes, body
      {
        sync := CancelOne(ls, sync, body, len, last, new_);
        ls := ls + 1;
      }
      PartlyEnd(last, new_, Codes(), body[..len], sync);
    }

    method CancelOne(ls: nat, sync: nat, body: array<Byte>, len: nat, ghost last: seq<Byte>, ghost new_: seq<Byte>)
      returns (next: nat)
      requires Valid() && len <= body.Length && body != lastCodes
      requires ls < lastCodesCount && sync <= len && Partly(last, new_, Codes(), body[..len], ls, sync)
      modifies lastCodes, body
      ensures next <= len && Partly(last, new_, Codes(), body[..len], ls + 1, next)
    {
      ghost var before, mixed := Codes(), body[..len];
      assert |last| == |before| && |new_| == len;
      hide Partly, Find, Pass;
      var ns := Seek(body, sync, len, lastCodes[ls]);
      PartlyStep(last, new_, before, mixed, ls, sync);
      assert before[ls] == lastCodes[ls] && ns - sync == Find(mixed[sync..], before[ls]);
      if ns < len {
        Erase(ls, body, ns, len);
        next := ns + 1;
      } else {
        next := sync;
      }
    }

    /** A code found in both scans is erased from both. */
    method Erase(ls: nat, body: array<Byte>, ns: nat, len: nat)
      requires Valid() && ls < lastCodesCount && ns < len <= body.Length && body != lastCodes
      modifies lastCodes, body
      ensures Codes() == old(Codes())[ls := EMPTY] && body[..len] == old(body[..len])[ns := EMPTY]
    {
      lastCodes[ls], body[ns] := EMPTY, EMPTY;
    }

    /** Searches the new scan behind the last match. */
    method Seek(body: array<Byte>, sync: nat, len: nat, c: Byte) returns (ns: nat)
      requires sync <= len <= body.Length
      ensures sync <= ns <= len && ns - sync == Find(body[..len][sync..], c)
    {
      ns := sync;
      while ns < len && body[ns] != c
        invariant sync <= ns <= len
        invariant forall n :: sync <= n < ns ==> body[n] != c
      {
        ns := ns + 1;
      }
      FoundAt(body[..len][sync..], c, ns - sync);
    }

    /** The upstrokes, from the end of the erased last scan. */
    method Released() returns (strokes: seq<Stroke>)
      requires Valid()
      ensures strokes == Ups(Codes())
    {
      strokes := [];
      var ls := lastCodesCount;
      while ls > 0
        invariant 0 <= ls <= lastCodesCount
        invariant strokes == Ups(Codes()[ls..])
      {
        ls := ls - 1;
        assert Codes()[ls..][1..] == Codes()[ls + 1..];
        if lastCodes[ls] != EMPTY {
          strokes := strokes + [Up(lastCodes[ls])];
        }
      }
      assert Codes()[0..] == Codes();
    }

    /** The downstrokes, until one of them returns from the debugger. */
    method Pressed(body: array<Byte>, len: nat, kdb: set<Byte>) returns (strokes: seq<Stroke>, broke: bool)
      requires len <= body.Length
      ensures broke <==> !NoneIn(body[..len], kdb)
      ensures !broke ==> strokes == Downs(body[..len])
      ensures broke ==> exists j: nat :: BreaksAt(body[..len], kdb, j) && strokes == Downs(body[..len][j..])
    {
      ghost var codes := body[..len];
      strokes := [];
      var ns: nat := len;
      while ns > 0
        invariant 0 <= ns <= len
        invariant strokes == Downs(codes[ns..]) && NoneIn(codes[ns..], kdb)
      {
        ns := ns - 1;
        assert codes[ns..][1..] == codes[ns + 1..] && codes[ns..][0] == body[ns];
        if body[ns] != EMPTY {
          strokes := strokes + [Down(body[ns])];
          if body[ns] in kdb {
            assert BreaksAt(codes, kdb, ns);
            return strokes, true;
          }
        }
      }
      assert codes[0..] == codes;
      broke := false;
    }
  }

  lemma {:induction false} FoundAt(s: seq<Byte>, c: Byte, k: nat)
    requires k <= |s| && (forall i :: 0 <= i < k ==> s[i] != c) && (k < |s| ==> s[k] == c)
    ensures Find(s, c) == k
  {
    if k > 0 {
      FoundAt(s[1..], c, k - 1);
    }
  }

  lemma PassStep(last: seq<Byte>, new_: seq<Byte>, ls: nat, sync: nat)
    requires ls < |last| && sync <= |new_|
    ensures var p := Pass(last[ls..], new_[sync..]); var ns := sync + Find(new_[sync..], last[ls]);
      if ns < |new_| then
        var rest := Pass(last[ls + 1..], new_[ns + 1..]);
        p.0 == [EMPTY] + rest.0 && p.1 == new_[sync..ns] + [EMPTY] + rest.1
      else
        var rest := Pass(last[ls + 1..], new_[sync..]);
        p.0 == [last[ls]] + rest.0 && p.1 == rest.1
  {
    hide Find, Pass;
    var k := Find(new_[sync..], last[ls]);
    assert last[ls..][1..] == last[ls + 1..] && last[ls..][0] == last[ls];
    if k < |new_[sync..]| {
      PassMatch(last[ls..], new_[sync..], k);
      assert new_[sync..][k + 1..] == new_[sync + k + 1..] && new_[sync..][..k] == new_[sync..sync + k];
    } else {
      PassMiss(last[ls..], new_[sync..]);
    }
  }

  /** The pass has dealt with ls old codes; nothing behind sync was touched. */
  ghost predicate Partly(last: seq<Byte>, new_: seq<Byte>, lastNow: seq<Byte>, newNow: seq<Byte>, ls: nat, sync: nat) {
    && |lastNow| == |last| && |newNow| == |new_| && ls <= |last| && sync <= |new_|
    && lastNow[ls..] == last[ls..] && newNow[sync..] == new_[sync..]
    && Pass(last, new_).0 == lastNow[..ls] + Pass(last[ls..], new_[sync..]).0
    && Pass(last, new_).1 == newNow[..sync] + Pass(last[ls..], new_[sync..]).1
  }

  lemma PartlyStart(last: seq<Byte>, new_: seq<Byte>)
    ensures Partly(last, new_, last, new_, 0, 0)
  {
    assert last[0..] == last && new_[0..] == new_;
  }

  lemma PartlyEnd(last: seq<Byte>, new_: seq<Byte>, lastNow: seq<Byte>, newNow: seq<Byte>, sync: nat)
    requires Partly(last, new_, lastNow, newNow, |last|, sync)
    ensures (lastNow, newNow) == Pass(last, new_)
  {
    assert Pass([], new_[sync..]) == ([], new_[sync..]);
    assert newNow == newNow[..sync] + newNow[sync..] && lastNow == lastNow[..|last|] + [];
  }

  lemma PartlyStep(last: seq<Byte>, new_: seq<Byte>, lastNow: seq<Byte>, newNow: seq<Byte>, ls: nat, sync: nat)
    requires Partly(last, new_, lastNow, newNow, ls, sync) && ls < |last|
    ensures var ns := sync + Find(newNow[sync..], lastNow[ls]);
      if ns < |new_| then Partly(last, new_, lastNow[ls := EMPTY], newNow[ns := EMPTY], ls + 1, ns + 1)
      else Partly(last, new_, lastNow, newNow, ls + 1, sync)
  {
    hide Pass, Find;
    var ns := sync + Find(newNow[sync..], lastNow[ls]);
    assert lastNow[ls] == lastNow[ls..][0] == last[ls];
    PassStep(last, new_, ls, sync);
    if ns < |new_| {
      var rest := Pass(last[ls + 1..], new_[ns + 1..]);
      Slices(newNow, new_, sync, ns);
      LastHalf(last, lastNow, ls, EMPTY, Pass(last, new_).0, Pass(last[ls..], new_[sync..]).0, rest.0);
      NewHalf(newNow, sync, ns, EMPTY, Pass(last, new_).1, Pass(last[ls..], new_[sync..]).1, rest.1);
    } else {
      LastHalf(last, lastNow, ls, lastNow[ls], Pass(last, new_).0, Pass(last[ls..], new_[sync..]).0,
        Pass(last[ls + 1..], new_[sync..]).0);
      assert lastNow[ls := lastNow[ls]] == lastNow;
    }
  }

  lemma LastHalf(last: seq<Byte>, s: seq<Byte>, i: nat, c: Byte, all: seq<Byte>, part: seq<Byte>, rest: seq<Byte>)
    requires i < |s| == |last| && s[i..] == last[i..]
    requires all == s[..i] + part && part == [c] + rest
    ensures all == s[i := c][..i + 1] + rest && s[i := c][i + 1..] == last[i + 1..]
  {
    Written(s, i, c, rest);
    assert s[i + 1..] == s[i..][1..] && last[i + 1..] == last[i..][1..];
  }

  lemma NewHalf(s: seq<Byte>, i: nat, j: nat, c: Byte, all: seq<Byte>, part: seq<Byte>, rest: seq<Byte>)
    requires i <= j < |s|
    requires all == s[..i] + part && part == s[i..j] + [c] + rest
    ensures all == s[j := c][..j + 1] + rest && s[j := c][j + 1..] == s[j + 1..]
  {
    WrittenBehind(s, i, j, c, rest);
  }

  lemma Slices(s: seq<Byte>, t: seq<Byte>, i: nat, j: nat)
    requires i <= j < |s| == |t| && s[i..] == t[i..]
    ensures s[i..j] == t[i..j] && s[j + 1..] == t[j + 1..]
  {
    assert s[i..j] == s[i..][..j - i] && t[i..j] == t[i..][..j - i];
    assert s[j + 1..] == s[i..][j + 1 - i..] && t[j + 1..] == t[i..][j + 1 - i..];
  }

  lemma Written(s: seq<Byte>, i: nat, c: Byte, rest: seq<Byte>)
    requires i < |s|
    ensures s[..i] + ([c] + rest) == s[i := c][..i + 1] + rest
    ensures s[i := c][i + 1..] == s[i + 1..]
  {}

  lemma WrittenBehind(s: seq<Byte>, i: nat, j: nat, c: Byte, rest: seq<Byte>)
    requires i <= j < |s|
    ensures s[..i] + (s[i..j] + [c] + rest) == s[j := c][..j + 1] + rest
    ensures s[j := c][j + 1..] == s[j + 1..]
  {}
}
