/**
  The folds that bring the vantages of one class to one reading (cmd/web/vantageclass.go), and the
  fold over the running classes above them (cmd/web/signals.go composeResolution).

  `IsClassFold` says what a class reading is in terms of the set of votes and the set of addresses
  alone; the loop is proved to compute it, and everything else follows from it.
*/
module ClassFolds {
  import opened Sorting

  datatype Outcome = Resolved | Gap | NotEvaluable | Lame | NameError | NoData | Shadowed | OtherOutcome(name: string)

  datatype Resolution = Resolution(outcome: Outcome, addresses: seq<string>)

  // ---------------------------------------------------------------- resolution within a class

  /** Every outcome some vantage of the class gave; a vantage that could not look gives none. */
  function Votes(group: seq<Resolution>): set<Outcome> {
    set v | v in group && v.outcome != Gap :: v.outcome
  }

  function Addresses(group: seq<Resolution>): set<string> {
    set v, a | v in group && v.outcome == Resolved && a in v.addresses :: a
  }

  ghost predicate Unanimous(votes: set<Outcome>) {
    exists o :: votes == {o}
  }

  /** One presence claim settles a class; an absence claim needs every vote; no vote at all is a Gap. */
  ghost function Verdict(votes: set<Outcome>): Outcome {
    if Resolved in votes then Resolved
    else if votes == {} then Gap
    else if Unanimous(votes) then (var o :| votes == {o}; o)
    else NotEvaluable
  }

  ghost predicate IsClassFold(group: seq<Resolution>, r: Resolution) {
    && r.outcome == Verdict(Votes(group))
    && (if r.outcome == Resolved then SortedListOf(r.addresses, Addresses(group)) else r.addresses == [])
  }

  lemma VerdictOfOne(votes: set<Outcome>, o: Outcome)
    requires votes == {o}
    ensures Verdict(votes) == o
  {
    if o != Resolved {
      assert Unanimous(votes);
      var p :| votes == {p} && Verdict(votes) == p;
      assert p in {o};
    }
  }

  lemma FoldSnoc(group: seq<Resolution>, i: nat)
    requires i < |group|
    ensures Votes(group[..i + 1]) == Votes(group[..i]) + if group[i].outcome == Gap then {} else {group[i].outcome}
    ensures Addresses(group[..i + 1])
            == Addresses(group[..i]) + if group[i].outcome == Resolved then ToSet(group[i].addresses) else {}
  {
    assert group[..i + 1] == group[..i] + [group[i]];
  }

  method ComposeClassResolution(group: seq<Resolution>) returns (r: Resolution)
    ensures IsClassFold(group, r)
  {
    var addrs: set<string> := {};
    var agreed, voted, unanimous, resolved := OtherOutcome(""), false, true, false;
    for i := 0 to |group|
      invariant addrs == Addresses(group[..i])
      invariant resolved <==> Resolved in Votes(group[..i])
      invariant voted <==> Votes(group[..i]) != {}
      invariant voted ==> agreed in Votes(group[..i])
      invariant voted ==> (unanimous <==> Votes(group[..i]) == {agreed})
      invariant !voted ==> unanimous
    {
      FoldSnoc(group, i);
      var v := group[i];
      if v.outcome == Gap {
        continue;
      }
      if v.outcome == Resolved {
        resolved := true;
        addrs := addrs + set a | a in v.addresses;
      }
      if !voted {
        agreed, voted := v.outcome, true;
      } else if v.outcome != agreed {
        unanimous := false;
      }
    }
    assert group[..|group|] == group;
    if resolved {
      var sorted := SortedKeys(addrs);
      return Resolution(Resolved, sorted);
    }
    if !voted {
      return Resolution(Gap, []);
    }
    if unanimous {
      VerdictOfOne(Votes(group), agreed);
      return Resolution(agreed, []);
    }
    assert !Unanimous(Votes(group)) by {
      assert forall o :: Votes(group) == {o} ==> agreed in {o};
    }
    return Resolution(NotEvaluable, []);
  }

  lemma ClassFoldIsUnique(group: seq<Resolution>, a: Resolution, b: Resolution)
    requires IsClassFold(group, a) && IsClassFold(group, b)
    ensures a == b
  {
    if Verdict(Votes(group)) == Resolved {
      SortedListIsUnique(a.addresses, b.addresses, Addresses(group));
    }
  }

  /** The reading depends only on which outcomes were given and which addresses were found. */
  lemma ClassFoldFromVotes(g: seq<Resolution>, h: seq<Resolution>, r: Resolution)
    requires Votes(g) == Votes(h) && Addresses(g) == Addresses(h)
    ensures IsClassFold(g, r) <==> IsClassFold(h, r)
  {
  }

  /** A class reading is the same whatever order its vantages are read in. */
  lemma ClassFoldIgnoresOrder(g: seq<Resolution>, h: seq<Resolution>, a: Resolution, b: Resolution)
    requires multiset(g) == multiset(h)
    requires IsClassFold(g, a) && IsClassFold(h, b)
    ensures a == b
  {
    forall v ensures v in g <==> v in h {
      assert v in multiset(g) <==> v in multiset(h);
    }
    ClassFoldFromVotes(g, h, a);
    ClassFoldIsUnique(h, a, b);
  }

  /** What a reading counts for when it stands in a group itself. */
  function Lift(o: Outcome): set<Outcome> {
    if o == Gap then {} else {o}
  }

  lemma PartialReading(g: seq<Resolution>, r: Resolution)
    requires IsClassFold(g, r)
    ensures Votes([r]) == Lift(r.outcome)
    ensures Addresses([r]) == Addresses(g)
  {
    assert forall v :: v in g && v.outcome == Resolved ==> v.outcome in Votes(g);
    if r.outcome == Resolved {
      assert Addresses([r]) == ToSet(r.addresses);
    } else {
      assert Addresses(g) == {} && Addresses([r]) == {};
    }
  }

  lemma VotesConcat(g: seq<Resolution>, h: seq<Resolution>)
    ensures Votes(g + h) == Votes(g) + Votes(h)
    ensures Addresses(g + h) == Addresses(g) + Addresses(h)
  {
    assert forall v :: v in g + h <==> v in g || v in h;
  }

  lemma VerdictCases(votes: set<Outcome>)
    requires Gap !in votes && votes != {} && Resolved !in votes
    ensures Verdict(votes) != Gap && Verdict(votes) != Resolved
    ensures Unanimous(votes) ==> votes == {Verdict(votes)}
    ensures !Unanimous(votes) ==> Verdict(votes) == NotEvaluable
  {
    if Unanimous(votes) {
      var o :| votes == {o} && Verdict(votes) == o;
      assert o in votes;
    }
  }

  lemma SplitVotesAreNotUnanimous(v: set<Outcome>, w: set<Outcome>, a: Outcome, b: Outcome)
    requires a in v && b in w && a != b
    ensures !Unanimous(v + w)
  {
    assert forall o :: v + w == {o} ==> a in {o} && b in {o};
  }

  /** Verdicts of two parts, put together, give the verdict of the whole. */
  lemma VerdictMerges(v: set<Outcome>, w: set<Outcome>)
    requires Gap !in v && Gap !in w
    ensures Verdict(v + w) == Verdict(Lift(Verdict(v)) + Lift(Verdict(w)))
  {
    if v == {} {
      MergeWithNothing(w);
      assert v + w == w && Lift(Verdict(v)) + Lift(Verdict(w)) == Lift(Verdict(w));
    } else if w == {} {
      MergeWithNothing(v);
      assert v + w == v && Lift(Verdict(v)) + Lift(Verdict(w)) == Lift(Verdict(v));
    } else if Resolved !in v && Resolved !in w {
      MergeUnresolved(v, w);
    }
  }

  lemma MergeWithNothing(v: set<Outcome>)
    requires Gap !in v
    ensures Verdict(Lift(Verdict(v))) == Verdict(v)
  {
    if v != {} && Resolved !in v {
      VerdictCases(v);
    }
    if Verdict(v) != Gap {
      VerdictOfOne(Lift(Verdict(v)), Verdict(v));
    }
  }

  lemma MergeUnresolved(v: set<Outcome>, w: set<Outcome>)
    requires Gap !in v && Gap !in w && v != {} && w != {} && Resolved !in v && Resolved !in w
    ensures Verdict(v + w) == Verdict({Verdict(v)} + {Verdict(w)})
    ensures Lift(Verdict(v)) == {Verdict(v)} && Lift(Verdict(w)) == {Verdict(w)}
  {
    VerdictCases(v);
    VerdictCases(w);
    var a, b := Verdict(v), Verdict(w);
    if a == b {
      VerdictOfOne({a} + {b}, a);
      if Unanimous(v) && Unanimous(w) {
        assert v + w == {a};
        VerdictOfOne(v + w, a);
      } else {
        UnanimousShrinks(v, w);
        UnanimousShrinks(w, v);
        assert v + w == w + v;
      }
    } else {
      SplitVotesAreNotUnanimous({a}, {b}, a, b);
      if Unanimous(v) && Unanimous(w) {
        SplitVotesAreNotUnanimous(v, w, a, b);
      } else {
        UnanimousShrinks(v, w);
        UnanimousShrinks(w, v);
        assert v + w == w + v;
      }
    }
  }

  lemma UnanimousShrinks(v: set<Outcome>, w: set<Outcome>)
    requires v != {}
    ensures Unanimous(v + w) ==> Unanimous(v)
  {
    if o :| v + w == {o} {
      var x :| x in v;
      assert x in {o};
      assert v == {o};
    }
  }

  /** Folding by parts: composing two partial readings gives the reading of the whole, and nothing
      else does. */
  lemma ClassFoldByParts(g: seq<Resolution>, h: seq<Resolution>, a: Resolution, b: Resolution, r: Resolution)
    requires IsClassFold(g, a) && IsClassFold(h, b)
    ensures IsClassFold(g + h, r) <==> IsClassFold([a, b], r)
  {
    PartialReading(g, a);
    PartialReading(h, b);
    VotesConcat(g, h);
    VotesConcat([a], [b]);
    assert [a] + [b] == [a, b];
    VerdictMerges(Votes(g), Votes(h));
  }

  function Concat(parts: seq<seq<Resolution>>): seq<Resolution> {
    if parts == [] then [] else Concat(parts[..|parts| - 1]) + parts[|parts| - 1]
  }

  lemma NoGapVotes(g: seq<Resolution>)
    ensures Gap !in Votes(g)
  {
  }

  /** Votes with one verdict merge alike with any others, and with those others' verdict. */
  lemma SameVerdictMerges(v: set<Outcome>, w: set<Outcome>, u: set<Outcome>)
    requires Gap !in v && Gap !in w && Gap !in u && Verdict(v) == Verdict(u)
    ensures Verdict(v + w) == Verdict(u + Lift(Verdict(w)))
  {
    VerdictMerges(v, w);
    MergeWithNothing(w);
    VerdictMerges(u, Lift(Verdict(w)));
  }

  /** One more part, and one more reading of it, keep a whole and its readings in agreement. */
  lemma PartAgrees(whole: seq<Resolution>, part: seq<Resolution>, read: seq<Resolution>, last: Resolution)
    requires IsClassFold(part, last)
    requires Verdict(Votes(whole)) == Verdict(Votes(read)) && Addresses(whole) == Addresses(read)
    ensures Verdict(Votes(whole + part)) == Verdict(Votes(read + [last]))
    ensures Addresses(whole + part) == Addresses(read + [last])
  {
    PartialReading(part, last);
    VotesConcat(whole, part);
    VotesConcat(read, [last]);
    NoGapVotes(whole);
    NoGapVotes(part);
    NoGapVotes(read);
    assert last.outcome == Verdict(Votes(part));
    SameVerdictMerges(Votes(whole), Votes(part), Votes(read));
  }

  ghost predicate AllRead(parts: seq<seq<Resolution>>, readings: seq<Resolution>) {
    |parts| == |readings| && forall i :: 0 <= i < |parts| ==> IsClassFold(parts[i], readings[i])
  }

  lemma {:induction false} PartsAgree(parts: seq<seq<Resolution>>, readings: seq<Resolution>, n: nat)
    requires AllRead(parts, readings) && n <= |parts|
    ensures Verdict(Votes(Concat(parts[..n]))) == Verdict(Votes(readings[..n]))
    ensures Addresses(Concat(parts[..n])) == Addresses(readings[..n])
  {
    if n == 0 {
      assert Concat(parts[..n]) == [] && readings[..n] == [];
    } else {
      var m := n - 1;
      PartsAgree(parts, readings, m);
      PartAgrees(Concat(parts[..m]), parts[m], readings[..m], readings[m]);
      assert parts[..n][..m] == parts[..m] && readings[..n] == readings[..m] + [readings[m]];
    }
  }

  /** And so for any number of parts. */
  lemma ClassFoldByAnyParts(parts: seq<seq<Resolution>>, readings: seq<Resolution>, r: Resolution)
    requires |parts| == |readings|
    requires forall i :: 0 <= i < |parts| ==> IsClassFold(parts[i], readings[i])
    ensures IsClassFold(Concat(parts), r) <==> IsClassFold(readings, r)
  {
    PartsAgree(parts, readings, |parts|);
    assert parts[..|parts|] == parts && readings[..|readings|] == readings;
  }

  // ---------------------------------------------------------------- resolution across classes

  /** estate.WithdrawnCrossClass over the running classes, each with its one reading or none. */
  predicate Suppresses(o: Outcome) {
    o == NameError || o == Shadowed
  }

  datatype Composed = Composed(outcome: Outcome, addresses: seq<string>, inEstate: bool)

  ghost predicate AllHold(classes: map<string, Resolution>, running: seq<string>, o: Outcome) {
    forall i :: 0 <= i < |running| ==> running[i] in classes && classes[running[i]].outcome == o
  }

  ghost predicate IsWithdrawal(o: Outcome) {
    o in {NameError, Shadowed}
  }

  ghost predicate AllWithdrawn(classes: map<string, Resolution>, running: seq<string>) {
    && running != []
    && forall i :: 0 <= i < |running| ==> running[i] in classes && IsWithdrawal(classes[running[i]].outcome)
  }

  function RunningAddresses(classes: map<string, Resolution>, running: seq<string>): set<string> {
    set c, a | c in running && c in classes && a in classes[c].addresses :: a
  }

  /** A value needs every running class to hold it; a lame delegation then replaces any value that
      is neither Resolved nor Shadowed. */
  ghost predicate IsComposed(classes: map<string, Resolution>, running: seq<string>, lame: bool, r: Composed) {
    && (r.inEstate <==> classes != map[] && !AllWithdrawn(classes, running))
    && (forall o :: running != [] && AllHold(classes, running, o) ==>
          if o == Resolved then r.outcome == Resolved && SortedListOf(r.addresses, RunningAddresses(classes, running))
          else r.outcome == (if lame && o != Shadowed then Lame else o) && r.addresses == [])
    && ((running == [] || forall o :: !AllHold(classes, running, o)) ==>
          r.outcome == NotEvaluable && r.addresses == [])
  }

  /** The witness loop: which running classes agree, and whether all of them suppress. */
  method ReadRunning(classes: map<string, Resolution>, running: seq<string>)
    returns (agreed: Outcome, complete: bool, withdrawn: bool)
    ensures complete ==> running != [] && AllHold(classes, running, agreed)
    ensures !complete ==> running == [] || forall o :: !AllHold(classes, running, o)
    ensures withdrawn <==> AllWithdrawn(classes, running)
  {
    agreed, complete, withdrawn := OtherOutcome(""), |running| > 0, |running| > 0;
    for i := 0 to |running|
      invariant i > 0 && running[0] in classes ==> agreed == classes[running[0]].outcome
      invariant complete ==> |running| > 0 && AllHold(classes, running[..i], agreed)
      invariant !complete ==> |running| == 0 || NoneHold(classes, running[..i])
      invariant withdrawn <==> |running| > 0 && forall k :: 0 <= k < i ==> running[k] in classes && IsWithdrawal(classes[running[k]].outcome)
    {
      var c := running[i];
      AllHoldSnoc(classes, running[..i], c, running[..i + 1]);
      if c !in classes {
        complete, withdrawn := false, false;
      } else {
        if !Suppresses(classes[c].outcome) {
          withdrawn := false;
        }
        if i == 0 {
          agreed := classes[c].outcome;
        } else if classes[c].outcome != agreed {
          complete := false;
          FirstDecides(classes, running[..i]);
          assert running[..i][0] == running[0];
        }
      }
    }
    assert running[..|running|] == running;
  }

  ghost predicate NoneHold(classes: map<string, Resolution>, running: seq<string>) {
    forall o :: !AllHold(classes, running, o)
  }

  lemma AllHoldOne(classes: map<string, Resolution>, prefix: seq<string>, c: string, longer: seq<string>, o: Outcome)
    requires longer == prefix + [c]
    ensures AllHold(classes, longer, o) <==> AllHold(classes, prefix, o) && c in classes && classes[c].outcome == o
  {
    assert longer[|prefix|] == c;
    assert forall k :: 0 <= k < |prefix| ==> longer[k] == prefix[k];
  }

  lemma AllHoldSnoc(classes: map<string, Resolution>, prefix: seq<string>, c: string, longer: seq<string>)
    requires longer == prefix + [c]
    ensures forall o :: AllHold(classes, longer, o) ==> AllHold(classes, prefix, o) && c in classes && classes[c].outcome == o
    ensures c in classes && AllHold(classes, prefix, classes[c].outcome) ==> AllHold(classes, longer, classes[c].outcome)
    ensures NoneHold(classes, prefix) ==> NoneHold(classes, longer)
  {
    forall o
      ensures AllHold(classes, longer, o) ==> AllHold(classes, prefix, o) && c in classes && classes[c].outcome == o
    {
      AllHoldOne(classes, prefix, c, longer, o);
    }
    if c in classes {
      AllHoldOne(classes, prefix, c, longer, classes[c].outcome);
    }
  }

  lemma FirstDecides(classes: map<string, Resolution>, running: seq<string>)
    requires running != []
    ensures forall o :: AllHold(classes, running, o) ==> running[0] in classes && classes[running[0]].outcome == o
  {
  }

  method ComposeResolution(classes: map<string, Resolution>, running: seq<string>, lame: bool) returns (r: Composed)
    ensures IsComposed(classes, running, lame, r)
  {
    var agreed, complete, withdrawn := ReadRunning(classes, running);
    var inEstate := |classes| > 0 && !withdrawn;
    if !complete {
      return Composed(NotEvaluable, [], inEstate);
    }
    FirstDecides(classes, running);
    if agreed == Resolved {
      var addrs: set<string> := {};
      for i := 0 to |running|
        invariant addrs == RunningAddresses(classes, running[..i])
      {
        assert running[..i + 1] == running[..i] + [running[i]];
        addrs := addrs + set a | a in classes[running[i]].addresses;
      }
      assert running[..|running|] == running;
      var sorted := SortedKeys(addrs);
      return Composed(Resolved, sorted, inEstate);
    }
    if lame && agreed != Shadowed {
      return Composed(Lame, [], inEstate);
    }
    return Composed(agreed, [], inEstate);
  }

  /** The reading does not depend on the order, or the repetition, of the running classes. */
  lemma ComposedIgnoresOrder(classes: map<string, Resolution>, a: seq<string>, b: seq<string>, lame: bool, r: Composed, q: Composed)
    requires ToSet(a) == ToSet(b)
    requires IsComposed(classes, a, lame, r) && IsComposed(classes, b, lame, q)
    ensures r == q
  {
    forall c: string ensures c in a <==> c in b {
      assert c in a <==> c in ToSet(a);
      assert c in b <==> c in ToSet(b);
    }
    assert a != [] ==> a[0] in b;
    assert b != [] ==> b[0] in a;
    forall o ensures AllHold(classes, a, o) <==> AllHold(classes, b, o) { SameMembersHold(classes, a, b, o); }
    SameMembersWithdrawn(classes, a, b);
    assert RunningAddresses(classes, a) == RunningAddresses(classes, b);
    if o :| a != [] && AllHold(classes, a, o) {
      if o == Resolved {
        SortedListIsUnique(r.addresses, q.addresses, RunningAddresses(classes, a));
      }
    }
  }

  lemma SameMembersHold(classes: map<string, Resolution>, a: seq<string>, b: seq<string>, o: Outcome)
    requires forall c :: c in a <==> c in b
    ensures AllHold(classes, a, o) <==> AllHold(classes, b, o)
  {
    if AllHold(classes, a, o) {
      forall i | 0 <= i < |b| ensures b[i] in classes && classes[b[i]].outcome == o { assert b[i] in a; }
    }
    if AllHold(classes, b, o) {
      forall i | 0 <= i < |a| ensures a[i] in classes && classes[a[i]].outcome == o { assert a[i] in b; }
    }
  }

  lemma SameMembersWithdrawn(classes: map<string, Resolution>, a: seq<string>, b: seq<string>)
    requires forall c :: c in a <==> c in b
    requires a == [] <==> b == []
    ensures AllWithdrawn(classes, a) <==> AllWithdrawn(classes, b)
  {
    if AllWithdrawn(classes, a) {
      forall i | 0 <= i < |b| ensures b[i] in classes && IsWithdrawal(classes[b[i]].outcome) { assert b[i] in a; }
    }
    if AllWithdrawn(classes, b) {
      forall i | 0 <= i < |a| ensures a[i] in classes && IsWithdrawal(classes[a[i]].outcome) { assert a[i] in b; }
    }
  }
}
