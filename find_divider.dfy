// Choosing the dividing face of a BSP node (the default find-divider
// strategy). Every face is tried as a candidate; every other face is
// classified against it and the front, back and spanning faces are
// tallied. After EACH classification the running tallies are judged,
// so a candidate can be chosen on partial counts. The best candidate has
// the fewest spanning faces, ties broken by a strictly better balance
// between front and back; the first one found wins a tie.
module FindDividerStrategy {
  import opened Wrappers
  import opened Geometry

  datatype DividerError = EmptyFaceSet

  /** How a compared face lies against the candidate's plane. */
  datatype Side = Front | Back | Spanning | Coplanar

  predicate HasPositive(p: Position) { p.a > 0 || p.b > 0 || p.c > 0 }

  predicate HasNegative(p: Position) { p.a < 0 || p.b < 0 || p.c < 0 }

  /** The switch on the sum of the sign triple. Its meaning: a face is in
      front if some sign is positive and none is negative, behind in the
      mirrored case, spanning if it has signs of both kinds, and coplanar
      (not counted) if all signs are zero. */
  function Classify(p: Position): (s: Side)
    ensures s == Coplanar <==> !HasPositive(p) && !HasNegative(p)
    ensures s == Front <==> HasPositive(p) && !HasNegative(p)
    ensures s == Back <==> HasNegative(p) && !HasPositive(p)
    ensures s == Spanning <==> HasPositive(p) && HasNegative(p)
  {
    var sum := p.a + p.b + p.c;
    if sum == -3 || sum == -2 then Back
    else if sum == 3 || sum == 2 then Front
    else if sum == -1 then (if p.a * p.b * p.c == 0 then Back else Spanning)
    else if sum == 1 then (if p.a * p.b * p.c == 0 then Front else Spanning)
    else if p.a != 0 || p.b != 0 || p.c != 0 then Spanning
    else Coplanar
  }

  /** The running tallies `no_front`, `no_back`, `no_span`. */
  datatype Counts = Counts(front: nat, back: nat, span: nat)

  function Count(c: Counts, s: Side): Counts
  {
    match s
    case Front => c.(front := c.front + 1)
    case Back => c.(back := c.back + 1)
    case Spanning => c.(span := c.span + 1)
    case Coplanar => c
  }

  /** A balance ratio num/den, den > 0, kept exact instead of a float. */
  datatype Ratio = Ratio(num: nat, den: nat)

  const Zero := Ratio(0, 1)

  /** x < y, by cross-multiplication (both denominators are positive). */
  predicate Below(x: Ratio, y: Ratio)
  {
    x.num * y.den < y.num * x.den
  }

  function Min(x: nat, y: nat): nat { if x < y then x else y }

  function Max(x: nat, y: nat): nat { if x < y then y else x }

  /** The division relation `cur_rel`: zero when either side is empty,
      one when both sides are equal, otherwise the smaller count over the
      larger, strictly between zero and one. */
  function Balance(c: Counts): (r: Ratio)
    ensures r.den > 0 && r.num <= r.den
    ensures r.num == 0 <==> c.front == 0 || c.back == 0
    ensures r.num == r.den <==> c.front == c.back && c.front > 0
    ensures c.front > 0 && c.back > 0 ==> r.num * Max(c.front, c.back) == Min(c.front, c.back) * r.den
  {
    if c.front * c.back == 0 then Zero
    else if c.front < c.back then Ratio(c.front, c.back)
    else if c.back < c.front then Ratio(c.back, c.front)
    else Ratio(1, 1)
  }

  /** The search state: `best_face` (None while it is `faces.end()`),
      `min_split` and `best_rel`. */
  datatype Best = Best(face: Option<Face>, minSplit: int, rel: Ratio)

  /** The state before the search: no face, `min_split` = set size. */
  function Init(faces: FaceSet): Best
  {
    Best(None, |faces|, Zero)
  }

  /** The accept test: the relation is at least `relation_minimum`, and
      there are fewer spanning faces, or as many with a better relation. */
  predicate Accepts(b: Best, c: Counts, relMin: Ratio)
  {
    !Below(Balance(c), relMin) &&
    (c.span < b.minSplit || (c.span == b.minSplit && Below(b.rel, Balance(c))))
  }

  /** One judgement of the candidate `ftest` on the tallies `c`. The best
      changes only to `ftest`, only on a strict improvement, and
      `min_split` never grows; with a zero minimum relation it ends at
      most at the judged span count. */
  function Judge(b: Best, ftest: Face, c: Counts, relMin: Ratio): (r: Best)
    ensures r == b || r == Best(Some(ftest), c.span, Balance(c))
    ensures r != b ==> c.span < b.minSplit || (c.span == b.minSplit && Below(b.rel, Balance(c)))
    ensures r.minSplit <= b.minSplit
    ensures relMin.num == 0 && relMin.den > 0 ==> r.minSplit <= c.span
  {
    if Accepts(b, c, relMin) then Best(Some(ftest), c.span, Balance(c)) else b
  }

  /** The tallies of candidate `ftest` over `faces[..k]`, the candidate
      itself skipped. */
  function Tally(cmp: (Face, Face) -> Position, faces: FaceSet, ftest: Face, k: nat): Counts
    requires k <= |faces|
  {
    if k == 0 then Counts(0, 0, 0)
    else if faces[k - 1] == ftest then Tally(cmp, faces, ftest, k - 1)
    else Count(Tally(cmp, faces, ftest, k - 1), Classify(cmp(ftest, faces[k - 1])))
  }

  /** The search state after the inner loop of candidate `ftest` has
      compared it with `faces[..k]`, starting from `b`. */
  function InnerPass(cmp: (Face, Face) -> Position, faces: FaceSet, ftest: Face, relMin: Ratio,
                     b: Best, k: nat): Best
    requires k <= |faces|
  {
    if k == 0 then b
    else if faces[k - 1] == ftest then InnerPass(cmp, faces, ftest, relMin, b, k - 1)
    else Judge(InnerPass(cmp, faces, ftest, relMin, b, k - 1), ftest, Tally(cmp, faces, ftest, k), relMin)
  }

  /** The search state after the candidates `faces[..i]`, starting from `b`. */
  function Pass(cmp: (Face, Face) -> Position, faces: FaceSet, relMin: Ratio, b: Best, i: nat): Best
    requires i <= |faces|
  {
    if i == 0 then b
    else InnerPass(cmp, faces, faces[i - 1], relMin, Pass(cmp, faces, relMin, b, i - 1), |faces|)
  }

  /** `FindDivider`: an error for the empty set, the only face of a
      one-face set, and otherwise the best face of the first pass (which
      always finds one, so the relax-and-retry loop never repeats). */
  function Divider(cmp: (Face, Face) -> Position, faces: FaceSet): (r: Result<Face, DividerError>)
    requires Distinct(faces)
    ensures r.Err? <==> faces == []
    ensures r.Ok? ==> r.value in faces
    ensures |faces| == 1 ==> r == Ok(faces[0])
  {
    if |faces| == 0 then Err(EmptyFaceSet)
    else if |faces| == 1 then Ok(faces[0])
    else
      FirstPassFinds(cmp, faces);
      PassMember(cmp, faces, Zero, Init(faces), |faces|);
      Ok(Pass(cmp, faces, Zero, Init(faces), |faces|).face.value)
  }

  /** The search as the source runs it: the relax-and-retry loop around a
      loop over candidates (the loop over compared faces is
      `TryCandidate`). */
  method FindDivider(cmp: (Face, Face) -> Position, faces: FaceSet) returns (r: Result<Face, DividerError>)
    requires Distinct(faces)
    ensures r == Divider(cmp, faces)
  {
    var relationMinimum := Ratio(0, 1);
    var n := |faces|;
    var best := Best(None, n, Ratio(0, 1));
    if n == 0 {
      return Err(EmptyFaceSet);
    }
    if n == 1 {
      best := best.(face := Some(faces[0]));
    }
    ghost var passes := 0;
    while best.face.None?
      invariant relationMinimum.num == 0 && relationMinimum.den > 0
      invariant n == 1 ==> best.face == Some(faces[0])
      invariant passes <= 1
      invariant n >= 2 && passes == 0 ==> best == Init(faces) && relationMinimum == Zero
      invariant n >= 2 && passes == 1 ==> best == Pass(cmp, faces, Zero, Init(faces), n)
      invariant passes == 1 ==> best.face.Some?
      decreases 1 - passes
    {
      for i := 0 to n
        invariant best == Pass(cmp, faces, relationMinimum, Init(faces), i)
      {
        best := TryCandidate(cmp, faces, faces[i], relationMinimum, best);
      }
      FirstPassFinds(cmp, faces);
      relationMinimum := Ratio(relationMinimum.num * 49, relationMinimum.den * 100);
      passes := passes + 1;
    }
    r := Ok(best.face.value);
  }

  /** The inner loop for one candidate: tally each other face and judge
      the candidate after every comparison. */
  method TryCandidate(cmp: (Face, Face) -> Position, faces: FaceSet, ftest: Face, relMin: Ratio, b: Best)
    returns (best: Best)
    ensures best == InnerPass(cmp, faces, ftest, relMin, b, |faces|)
  {
    best := b;
    var noFront: nat, noBack: nat, noSpan: nat := 0, 0, 0;
    for j := 0 to |faces|
      invariant Counts(noFront, noBack, noSpan) == Tally(cmp, faces, ftest, j)
      invariant best == InnerPass(cmp, faces, ftest, relMin, b, j)
    {
      var fcomp := faces[j];
      if fcomp != ftest {
        noFront, noBack, noSpan := CountPosition(cmp(ftest, fcomp), noFront, noBack, noSpan);
        var curRel := Relation(noFront, noBack);
        if curRel.num * relMin.den >= relMin.num * curRel.den &&
           (noSpan < best.minSplit ||
            (noSpan == best.minSplit && best.rel.num * curRel.den < curRel.num * best.rel.den))
        {
          best := Best(Some(ftest), noSpan, curRel);
        }
      }
    }
  }

  /** The switch on the sign sum: bumps the tally `Classify` names. */
  method CountPosition(pos: Position, front: nat, back: nat, span: nat) returns (front': nat, back': nat, span': nat)
    ensures Counts(front', back', span') == Count(Counts(front, back, span), Classify(pos))
  {
    front', back', span' := front, back, span;
    var sum := pos.a + pos.b + pos.c;
    if sum == -3 || sum == -2 {
      back' := back + 1;
    } else if sum == 3 || sum == 2 {
      front' := front + 1;
    } else if sum == -1 {
      if pos.a * pos.b * pos.c == 0 { back' := back + 1; } else { span' := span + 1; }
    } else if sum == 1 {
      if pos.a * pos.b * pos.c == 0 { front' := front + 1; } else { span' := span + 1; }
    } else if pos.a != 0 || pos.b != 0 || pos.c != 0 {
      span' := span + 1;
    }
  }

  /** The division relation computed as the source does. */
  method Relation(front: nat, back: nat) returns (curRel: Ratio)
    ensures curRel == Balance(Counts(front, back, 0))
  {
    if front * back == 0 {
      curRel := Ratio(0, 1);
    } else if front < back {
      curRel := Ratio(front, back);
    } else if back < front {
      curRel := Ratio(back, front);
    } else {
      curRel := Ratio(1, 1);
    }
  }

  // ----- the chosen face is one of the set -----

  lemma {:induction false} InnerMember(cmp: (Face, Face) -> Position, faces: FaceSet, ftest: Face,
                                       relMin: Ratio, b: Best, k: nat)
    requires k <= |faces| && ftest in faces
    requires b.face.Some? ==> b.face.value in faces
    ensures var r := InnerPass(cmp, faces, ftest, relMin, b, k); r.face.Some? ==> r.face.value in faces
  {
    if k > 0 {
      InnerMember(cmp, faces, ftest, relMin, b, k - 1);
    }
  }

  /** Whatever face the search holds is an element of the set. */
  lemma {:induction false} PassMember(cmp: (Face, Face) -> Position, faces: FaceSet, relMin: Ratio, b: Best, i: nat)
    requires i <= |faces|
    requires b.face.Some? ==> b.face.value in faces
    ensures var r := Pass(cmp, faces, relMin, b, i); r.face.Some? ==> r.face.value in faces
  {
    if i > 0 {
      PassMember(cmp, faces, relMin, b, i - 1);
      InnerMember(cmp, faces, faces[i - 1], relMin, Pass(cmp, faces, relMin, b, i - 1), |faces|);
    }
  }

  // ----- the first pass always finds a face -----

  lemma {:induction false} InnerKeepsFound(cmp: (Face, Face) -> Position, faces: FaceSet, ftest: Face,
                                           relMin: Ratio, b: Best, k0: nat, k: nat)
    requires k0 <= k <= |faces|
    requires InnerPass(cmp, faces, ftest, relMin, b, k0).face.Some?
    ensures InnerPass(cmp, faces, ftest, relMin, b, k).face.Some?
  {
    if k > k0 {
      InnerKeepsFound(cmp, faces, ftest, relMin, b, k0, k - 1);
    }
  }

  lemma {:induction false} PassKeepsFound(cmp: (Face, Face) -> Position, faces: FaceSet, relMin: Ratio,
                                          b: Best, i0: nat, i: nat)
    requires i0 <= i <= |faces|
    requires Pass(cmp, faces, relMin, b, i0).face.Some?
    ensures Pass(cmp, faces, relMin, b, i).face.Some?
  {
    if i > i0 {
      PassKeepsFound(cmp, faces, relMin, b, i0, i - 1);
      InnerKeepsFound(cmp, faces, faces[i - 1], relMin, Pass(cmp, faces, relMin, b, i - 1), 0, |faces|);
    }
  }

  /** With a zero minimum relation, the first face's comparison with the
      second one is accepted, since at most one span has been counted
      against `min_split` = set size >= 2. So the first pass ends with a
      face, and `relation_minimum`, which stays 0 * 0.49 = 0, is never
      relaxed into use: the retry loop runs once. */
  lemma FirstPassFinds(cmp: (Face, Face) -> Position, faces: FaceSet)
    requires |faces| >= 2 && Distinct(faces)
    ensures Pass(cmp, faces, Zero, Init(faces), |faces|).face.Some?
  {
    var ftest := faces[0];
    assert InnerPass(cmp, faces, ftest, Zero, Init(faces), 1) == Init(faces);
    assert faces[1] != ftest;
    assert Tally(cmp, faces, ftest, 1) == Counts(0, 0, 0);
    assert InnerPass(cmp, faces, ftest, Zero, Init(faces), 2).face.Some?;
    InnerKeepsFound(cmp, faces, ftest, Zero, Init(faces), 2, |faces|);
    assert Pass(cmp, faces, Zero, Init(faces), 1).face.Some?;
    PassKeepsFound(cmp, faces, Zero, Init(faces), 1, |faces|);
  }

  // ----- min_split only shrinks, and ends at most at every full tally -----

  lemma {:induction false} InnerMinSplitShrinks(cmp: (Face, Face) -> Position, faces: FaceSet, ftest: Face,
                                                relMin: Ratio, b: Best, k0: nat, k: nat)
    requires k0 <= k <= |faces|
    ensures InnerPass(cmp, faces, ftest, relMin, b, k).minSplit <= InnerPass(cmp, faces, ftest, relMin, b, k0).minSplit
  {
    if k > k0 {
      InnerMinSplitShrinks(cmp, faces, ftest, relMin, b, k0, k - 1);
    }
  }

  lemma {:induction false} PassMinSplitShrinks(cmp: (Face, Face) -> Position, faces: FaceSet, relMin: Ratio,
                                               b: Best, i0: nat, i: nat)
    requires i0 <= i <= |faces|
    ensures Pass(cmp, faces, relMin, b, i).minSplit <= Pass(cmp, faces, relMin, b, i0).minSplit
  {
    if i > i0 {
      PassMinSplitShrinks(cmp, faces, relMin, b, i0, i - 1);
      InnerMinSplitShrinks(cmp, faces, faces[i - 1], relMin, Pass(cmp, faces, relMin, b, i - 1), 0, |faces|);
    }
  }

  /** After its inner loop a candidate has been judged on its complete
      tally (at its last compared face), so `min_split` is at most that. */
  lemma CandidateJudgedOnFullTally(cmp: (Face, Face) -> Position, faces: FaceSet, i: nat, b: Best)
    requires Distinct(faces) && |faces| >= 2 && i < |faces|
    ensures InnerPass(cmp, faces, faces[i], Zero, b, |faces|).minSplit <= Tally(cmp, faces, faces[i], |faces|).span
  {
    var n := |faces|;
    var ftest := faces[i];
    var last := if i == n - 1 then n - 2 else n - 1;
    assert faces[last] != ftest;
    assert InnerPass(cmp, faces, ftest, Zero, b, last + 1).minSplit <= Tally(cmp, faces, ftest, last + 1).span;
    if last + 1 < n {
      assert faces[n - 1] == ftest;
      assert Tally(cmp, faces, ftest, n) == Tally(cmp, faces, ftest, n - 1);
      assert InnerPass(cmp, faces, ftest, Zero, b, n) == InnerPass(cmp, faces, ftest, Zero, b, n - 1);
    }
  }

  /** The search ends with `min_split` no larger than the complete span
      count of any face of the set: no face has fewer spanning faces than
      the count the chosen one was accepted with. */
  lemma FewestSpans(cmp: (Face, Face) -> Position, faces: FaceSet, i: nat)
    requires Distinct(faces) && |faces| >= 2 && i < |faces|
    ensures Pass(cmp, faces, Zero, Init(faces), |faces|).minSplit <= Tally(cmp, faces, faces[i], |faces|).span
  {
    CandidateJudgedOnFullTally(cmp, faces, i, Pass(cmp, faces, Zero, Init(faces), i));
    PassMinSplitShrinks(cmp, faces, Zero, Init(faces), i + 1, |faces|);
  }

  // ----- a convex set: the first face wins every tie -----

  /** Every face lies in front of every other face's plane. */
  predicate AllInFront(cmp: (Face, Face) -> Position, faces: FaceSet)
  {
    forall i, j :: 0 <= i < |faces| && 0 <= j < |faces| && i != j ==> Classify(cmp(faces[i], faces[j])) == Front
  }

  lemma {:induction false} TallyAllFront(cmp: (Face, Face) -> Position, faces: FaceSet, i: nat, k: nat)
    requires AllInFront(cmp, faces) && i < |faces| && k <= |faces|
    ensures Tally(cmp, faces, faces[i], k).back == 0 && Tally(cmp, faces, faces[i], k).span == 0
  {
    if k > 0 {
      TallyAllFront(cmp, faces, i, k - 1);
      if faces[k - 1] != faces[i] {
        assert k - 1 != i;
      }
    }
  }

  function FirstWins(faces: FaceSet): Best
    requires faces != []
  {
    Best(Some(faces[0]), 0, Zero)
  }

  lemma {:induction false} InnerStaysFirst(cmp: (Face, Face) -> Position, faces: FaceSet, i: nat, b: Best,
                                           k0: nat, k: nat)
    requires AllInFront(cmp, faces) && i < |faces| && k0 <= k <= |faces|
    requires InnerPass(cmp, faces, faces[i], Zero, b, k0) == FirstWins(faces)
    ensures InnerPass(cmp, faces, faces[i], Zero, b, k) == FirstWins(faces)
  {
    if k > k0 {
      InnerStaysFirst(cmp, faces, i, b, k0, k - 1);
      TallyAllFront(cmp, faces, i, k);
    }
  }

  lemma {:induction false} PassStaysFirst(cmp: (Face, Face) -> Position, faces: FaceSet, i: nat)
    requires AllInFront(cmp, faces) && Distinct(faces) && |faces| >= 2 && 1 <= i <= |faces|
    ensures Pass(cmp, faces, Zero, Init(faces), i) == FirstWins(faces)
  {
    if i == 1 {
      var ftest := faces[0];
      assert InnerPass(cmp, faces, ftest, Zero, Init(faces), 1) == Init(faces);
      assert faces[1] != ftest;
      assert Tally(cmp, faces, ftest, 1) == Counts(0, 0, 0);
      assert InnerPass(cmp, faces, ftest, Zero, Init(faces), 2) == FirstWins(faces);
      InnerStaysFirst(cmp, faces, 0, Init(faces), 2, |faces|);
    } else {
      PassStaysFirst(cmp, faces, i - 1);
      InnerStaysFirst(cmp, faces, i - 1, FirstWins(faces), 0, |faces|);
    }
  }

  /** A convex set (every face in front of every other) has no spanning
      faces and no balance anywhere: the first face is accepted at once
      and no later candidate is strictly better, so it is returned. */
  lemma ConvexSetPicksFirst(cmp: (Face, Face) -> Position, faces: FaceSet)
    requires AllInFront(cmp, faces) && Distinct(faces) && faces != []
    ensures Divider(cmp, faces) == Ok(faces[0])
  {
    if |faces| >= 2 {
      PassStaysFirst(cmp, faces, |faces|);
    }
  }

  // ----- judging on partial counts -----

  /** Three faces A, B, C where C straddles A's plane and everything else
      is in front: A is accepted on its first comparison (with B, no
      spans yet) and is kept, although its complete tally has one span
      and B's has none. */
  lemma PartialCountsChooseMoreSpans()
    ensures var A, B, C := Face(0), Face(1), Face(2);
            var cmp := (f: Face, g: Face) => if f == A && g == C then Position(1, -1, 0) else Position(1, 1, 1);
            Divider(cmp, [A, B, C]) == Ok(A) &&
            Tally(cmp, [A, B, C], A, 3).span == 1 && Tally(cmp, [A, B, C], B, 3).span == 0
  {
    var A, B, C := Face(0), Face(1), Face(2);
    var cmp := (f: Face, g: Face) => if f == A && g == C then Position(1, -1, 0) else Position(1, 1, 1);
    var faces := [A, B, C];
    assert Classify(Position(1, 1, 1)) == Front;
    assert Classify(Position(1, -1, 0)) == Spanning;
    assert cmp(A, B) == Position(1, 1, 1) && cmp(A, C) == Position(1, -1, 0);
    assert cmp(B, A) == Position(1, 1, 1) && cmp(B, C) == Position(1, 1, 1);
    assert cmp(C, A) == Position(1, 1, 1) && cmp(C, B) == Position(1, 1, 1);
    var chosen := Best(Some(A), 0, Zero);
    assert Tally(cmp, faces, A, 1) == Counts(0, 0, 0);
    assert Tally(cmp, faces, A, 2) == Counts(1, 0, 0);
    assert Init(faces) == Best(None, 3, Zero);
    assert InnerPass(cmp, faces, A, Zero, Init(faces), 1) == Init(faces);
    assert Balance(Counts(1, 0, 0)) == Zero;
    assert Accepts(Init(faces), Counts(1, 0, 0), Zero);
    assert InnerPass(cmp, faces, A, Zero, Init(faces), 2) == chosen;
    assert Tally(cmp, faces, A, 3) == Counts(1, 0, 1);
    assert Pass(cmp, faces, Zero, Init(faces), 1) == chosen;
    assert Tally(cmp, faces, B, 1) == Counts(1, 0, 0);
    assert Tally(cmp, faces, B, 2) == Counts(1, 0, 0);
    assert Tally(cmp, faces, B, 3) == Counts(2, 0, 0);
    assert InnerPass(cmp, faces, B, Zero, chosen, 1) == chosen;
    assert InnerPass(cmp, faces, B, Zero, chosen, 2) == chosen;
    assert InnerPass(cmp, faces, B, Zero, chosen, 3) == chosen;
    assert Pass(cmp, faces, Zero, Init(faces), 2) == chosen;
    assert Tally(cmp, faces, C, 1) == Counts(1, 0, 0);
    assert Tally(cmp, faces, C, 2) == Counts(2, 0, 0);
    assert InnerPass(cmp, faces, C, Zero, chosen, 1) == chosen;
    assert InnerPass(cmp, faces, C, Zero, chosen, 2) == chosen;
    assert InnerPass(cmp, faces, C, Zero, chosen, 3) == chosen;
    assert Pass(cmp, faces, Zero, Init(faces), 3) == chosen;
  }
}
