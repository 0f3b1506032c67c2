/** Streaming and in-memory dump: the same map, and the streamed text is its JSON. */
module JsonDump {
  import opened JsonStream

  // ---- both dumps of a list of records ----

  /** The groups, and lastEntity, after all records. */
  datatype Fold = Fold(groups: seq<Group>, last: string)

  function Streamed(recs: seq<Rec>): Fold {
    if recs == [] then Fold([], "")
    else
      var f := Streamed(recs[..|recs| - 1]);
      Fold(Add(f.groups, f.last, recs[|recs| - 1]), LastAfter(f.last, recs[|recs| - 1]))
  }

  method StreamDump(recs: seq<Rec>) returns (text: string)
    ensures text == Doc(Streamed(recs).groups)
  {
    var w := new Writer();
    var i := 0;
    while i < |recs|
      invariant 0 <= i <= |recs| && w.Valid() && fresh(w)
      invariant Streamed(recs[..i]) == Fold(w.groups, w.last)
    {
      assert recs[..i + 1][..i] == recs[..i];
      w.Put(recs[i]);
      i := i + 1;
    }
    assert recs[..i] == recs;
    text := w.Finish();
  }

  /** The records of one name, in order. */
  function Of(recs: seq<Rec>, name: string): seq<string> {
    if recs == [] then []
    else
      var n := |recs| - 1;
      Of(recs[..n], name) + if recs[n].name == name then [recs[n].json] else []
  }

  /** result holds the records of recs by entity name. */
  ghost predicate ByName(result: map<string, seq<string>>, recs: seq<Rec>) {
    forall name :: (name in result <==> Named(recs, name)) && (name in result ==> result[name] == Of(recs, name))
  }

  /** dumpToJson: all records in memory, by entity name. */
  method BatchDump(recs: seq<Rec>) returns (result: map<string, seq<string>>)
    ensures ByName(result, recs)
  {
    result := map[];
    var i := 0;
    while i < |recs|
      invariant 0 <= i <= |recs| && ByName(result, recs[..i])
    {
      assert recs[..i + 1] == recs[..i] + [recs[i]];
      HoldsNext(result, recs[..i], recs[i]);
      var arr := if recs[i].name in result then result[recs[i].name] else [];
      result := result[recs[i].name := arr + [recs[i].json]];
      i := i + 1;
    }
    assert recs[..i] == recs;
  }

  lemma HoldsNext(result: map<string, seq<string>>, recs: seq<Rec>, r: Rec)
    requires ByName(result, recs)
    ensures ByName(result[r.name := (if r.name in result then result[r.name] else []) + [r.json]], recs + [r])
  {
    var result' := result[r.name := (if r.name in result then result[r.name] else []) + [r.json]];
    forall name
      ensures (name in result' <==> Named(recs + [r], name)) &&
              (name in result' ==> result'[name] == Of(recs + [r], name))
    {
      NamedMore(recs, r, name);
      OfNone(recs, name);
      OfMore(recs, r, name);
    }
  }

  lemma OfMore(recs: seq<Rec>, r: Rec, name: string)
    ensures Of(recs + [r], name) == Of(recs, name) + if r.name == name then [r.json] else []
  {
    assert (recs + [r])[..|recs|] == recs;
  }

  lemma {:induction false} OfNone(recs: seq<Rec>, name: string)
    ensures Of(recs, name) == [] <==> !Named(recs, name)
    decreases |recs|
  {
    if recs != [] {
      var t, r := recs[..|recs| - 1], recs[|recs| - 1];
      assert recs == t + [r];
      OfNone(t, name);
      NamedMore(t, r, name);
      OfMore(t, r, name);
    }
  }

  // ---- the map a text stands for ----

  /** The value of a member of a JSON object, the last of the name winning; empty when there is none. */
  function ValueOf(gs: seq<Group>, name: string): seq<string> {
    if gs == [] then []
    else if gs[|gs| - 1].name == name then gs[|gs| - 1].recs
    else ValueOf(gs[..|gs| - 1], name)
  }

  /** The members stand for the records. */
  ghost predicate StandsFor(gs: seq<Group>, recs: seq<Rec>) {
    forall name :: ValueOf(gs, name) == Of(recs, name)
  }

  ghost predicate Distinct(gs: seq<Group>) {
    forall i, j :: 0 <= i < j < |gs| ==> gs[i].name != gs[j].name
  }

  ghost predicate Named(recs: seq<Rec>, name: string) { exists i :: 0 <= i < |recs| && recs[i].name == name }
  ghost predicate InGroups(gs: seq<Group>, name: string) { exists i :: 0 <= i < |gs| && gs[i].name == name }

  /** Each entity's records are next to each other. */
  ghost predicate Contiguous(recs: seq<Rec>) {
    forall i, j, k :: 0 <= i < j < k < |recs| && recs[i].name == recs[k].name ==> recs[j].name == recs[i].name
  }

  /** A name that lastEntity can hold, and that does not look like no name. */
  predicate Fits(name: string) { 1 <= |name| < LAST_SIZE }

  /** Only names that fit have several records. */
  ghost predicate RepeatsFit(recs: seq<Rec>) {
    forall i, j :: 0 <= i < j < |recs| && recs[i].name == recs[j].name ==> Fits(recs[i].name)
  }

  /** No name is followed by what lastEntity holds of it. */
  ghost predicate NoMix(recs: seq<Rec>) {
    forall i, j :: 0 <= i < |recs| && 0 <= j < |recs| && j == i + 1 ==> Apart(recs[i].name, recs[j].name)
  }

  predicate Apart(name: string, next: string) { next == name || next != Trunc(name) }

  ghost predicate Faithful(recs: seq<Rec>) { Contiguous(recs) && RepeatsFit(recs) && NoMix(recs) }

  /** What holds of the groups whatever the records are. */
  ghost predicate Tracks(recs: seq<Rec>, f: Fold) {
    && (recs == [] <==> f.groups == [])
    && f.last == (if recs == [] then "" else Trunc(f.groups[|f.groups| - 1].name))
    && (forall i :: 0 <= i < |f.groups| ==> Named(recs, f.groups[i].name))
    && (forall name :: |name| < LAST_SIZE ==> |ValueOf(f.groups, name)| <= |Of(recs, name)|)
  }

  lemma NamedMore(recs: seq<Rec>, r: Rec, name: string)
    ensures Named(recs + [r], name) <==> Named(recs, name) || name == r.name
  {
    var all := recs + [r];
    if i :| 0 <= i < |recs| && recs[i].name == name { assert all[i].name == name; }
    if name == r.name { assert all[|recs|].name == name; }
  }

  lemma TracksNext(recs: seq<Rec>, f: Fold, r: Rec)
    requires Tracks(recs, f)
    ensures Tracks(recs + [r], Fold(Add(f.groups, f.last, r), LastAfter(f.last, r)))
  {
    hide Named, ValueOf, Of, Trunc;
    var gs, gs' := f.groups, Add(f.groups, f.last, r);
    var n := |gs'| - 1;
    forall i | 0 <= i < |gs'| ensures Named(recs + [r], gs'[i].name) {
      NamedMore(recs, r, gs'[i].name);
      if i < |gs| { assert Named(recs, gs[i].name); }
    }
    forall name | |name| < LAST_SIZE ensures |ValueOf(gs', name)| <= |Of(recs + [r], name)| {
      OfMore(recs, r, name);
      if IsNew(f.last, r.name) {
        ValueNew(gs, gs'[n], name);
      } else {
        ValueMore(gs, r.json, name);
        ShortTrunc(gs[n].name);
      }
    }
  }

  lemma ShortTrunc(name: string)
    ensures |name| < LAST_SIZE ==> Trunc(name) == name
    ensures |name| >= LAST_SIZE ==> Trunc(name) != name
  {
  }

  lemma {:induction false} StreamTracks(recs: seq<Rec>)
    ensures Tracks(recs, Streamed(recs))
    decreases |recs|
  {
    hide Tracks, Add, LastAfter;
    if recs == [] {
      assert Tracks([], Fold([], "")) by { TracksNone(); }
    } else {
      var t, r := recs[..|recs| - 1], recs[|recs| - 1];
      assert recs == t + [r];
      StreamTracks(t);
      TracksNext(t, Streamed(t), r);
    }
  }

  lemma TracksNone()
    ensures Tracks([], Fold([], ""))
  {
  }

  /** A record of a name seen before, but not just before, or of a new name. */
  lemma ContiguousNext(recs: seq<Rec>, r: Rec)
    ensures Contiguous(recs + [r]) <==>
            Contiguous(recs) && (Named(recs, r.name) ==> recs != [] && recs[|recs| - 1].name == r.name)
  {
    var all, n := recs + [r], |recs|;
    assert forall i :: 0 <= i < n ==> all[i] == recs[i];
    if Contiguous(all) {
      forall i, j, k | 0 <= i < j < k < n && recs[i].name == recs[k].name ensures recs[j].name == recs[i].name {
        assert all[i].name == all[k].name && all[j].name == all[i].name;
      }
      if Named(recs, r.name) {
        var i :| 0 <= i < n && recs[i].name == r.name;
        var j := n - 1;
        if i < j { assert all[i].name == all[n].name && all[j].name == all[i].name; }
      }
    }
    if Contiguous(recs) && (Named(recs, r.name) ==> n > 0 && recs[n - 1].name == r.name) {
      forall i, j, k | 0 <= i < j < k < |all| && all[i].name == all[k].name ensures all[j].name == all[i].name {
        if k == n {
          assert recs[i].name == r.name;
          var l := n - 1;
          if j < l { assert recs[i].name == recs[l].name && recs[j].name == recs[i].name; }
        } else {
          assert recs[i].name == recs[k].name && recs[j].name == recs[i].name;
        }
      }
    }
  }

  lemma RepeatsNext(recs: seq<Rec>, r: Rec)
    ensures RepeatsFit(recs + [r]) <==> RepeatsFit(recs) && (Named(recs, r.name) ==> Fits(r.name))
  {
    var all, n := recs + [r], |recs|;
    assert forall i :: 0 <= i < n ==> all[i] == recs[i];
    if RepeatsFit(all) {
      forall i, j | 0 <= i < j < n && recs[i].name == recs[j].name ensures Fits(recs[i].name) {
        assert all[i].name == all[j].name;
      }
      if Named(recs, r.name) {
        var i :| 0 <= i < n && recs[i].name == r.name;
        assert all[i].name == all[n].name;
      }
    }
    if RepeatsFit(recs) && (Named(recs, r.name) ==> Fits(r.name)) {
      forall i, j | 0 <= i < j < |all| && all[i].name == all[j].name ensures Fits(all[i].name) {
        assert if j == n then recs[i].name == r.name else recs[i].name == recs[j].name;
      }
    }
  }

  lemma MixNext(recs: seq<Rec>, r: Rec)
    ensures NoMix(recs + [r]) <==> NoMix(recs) && (recs != [] ==> Apart(recs[|recs| - 1].name, r.name))
  {
    hide Apart;
    var all, n := recs + [r], |recs|;
    assert forall i :: 0 <= i < n ==> all[i] == recs[i];
    if NoMix(all) {
      forall i, j | 0 <= i < n && 0 <= j < n && j == i + 1 ensures Apart(recs[i].name, recs[j].name) {
        assert Apart(all[i].name, all[j].name);
      }
      if recs != [] {
        var m := n - 1;
        assert Apart(all[m].name, all[n].name);
      }
    }
  }

  lemma DistinctNew(gs: seq<Group>, g: Group)
    ensures Distinct(gs + [g]) <==> Distinct(gs) && !InGroups(gs, g.name)
  {
    var all := gs + [g];
    if Distinct(all) {
      forall i | 0 <= i < |gs| ensures gs[i].name != g.name { assert all[i].name != all[|gs|].name; }
      forall i, j | 0 <= i < j < |gs| ensures gs[i].name != gs[j].name { assert all[i].name != all[j].name; }
    }
  }

  lemma DistinctSame(gs: seq<Group>, g: Group)
    requires gs != [] && g.name == gs[|gs| - 1].name
    ensures Distinct(gs[|gs| - 1 := g]) <==> Distinct(gs)
  {
    var gs' := gs[|gs| - 1 := g];
    assert forall i :: 0 <= i < |gs| ==> gs'[i].name == gs[i].name;
  }

  /** The streamed members stand for the map of the in-memory dump exactly when the records of
      an entity are contiguous, an entity of an empty or too long name has one record only, and
      no entity follows one whose name it is the cut of; then each entity is opened once. */
  lemma {:induction false} StreamEqualsBatch(recs: seq<Rec>)
    ensures StandsFor(Streamed(recs).groups, recs) <==> Faithful(recs)
    ensures Faithful(recs) ==> Distinct(Streamed(recs).groups) && SameLast(Streamed(recs).groups, recs)
    decreases |recs|
  {
    hide Contiguous, RepeatsFit, NoMix, Distinct, Named, Tracks, Add, LastAfter, IsNew, StandsFor, Trunc, Apart;
    if recs == [] {
      NothingYet();
    } else {
      var t, r := recs[..|recs| - 1], recs[|recs| - 1];
      assert recs == t + [r];
      StreamEqualsBatch(t);
      StreamTracks(t);
      ContiguousNext(t, r);
      RepeatsNext(t, r);
      MixNext(t, r);
      Step(t, Streamed(t), r);
    }
  }

  /** The open member is that of the last record. */
  ghost predicate SameLast(gs: seq<Group>, recs: seq<Rec>) {
    |recs| > 0 ==> |gs| > 0 && gs[|gs| - 1].name == recs[|recs| - 1].name
  }

  lemma NothingYet()
    ensures Distinct([]) && Contiguous([]) && RepeatsFit([]) && NoMix([]) && StandsFor([], [])
  {
  }

  /** r can be told apart from what came before. */
  ghost predicate StepOk(t: seq<Rec>, r: Rec) {
    && (Named(t, r.name) ==> t != [] && t[|t| - 1].name == r.name && Fits(r.name))
    && (t != [] ==> Apart(t[|t| - 1].name, r.name))
  }

  lemma Step(t: seq<Rec>, f: Fold, r: Rec)
    requires Tracks(t, f)
    ensures var gs := Add(f.groups, f.last, r);
            && (StandsFor(gs, t + [r]) ==> StandsFor(f.groups, t))
            && (SameLast(f.groups, t) ==>
                  && (StandsFor(gs, t + [r]) <==> StandsFor(f.groups, t) && StepOk(t, r))
                  && (StepOk(t, r) && Distinct(f.groups) ==> Distinct(gs) && SameLast(gs, t + [r])))
  {
    hide Distinct, Named, StandsFor, ValueOf, Of, Trunc;
    if t != [] {
      ShortTrunc(t[|t| - 1].name);
      TruncEmpty(t[|t| - 1].name);
      LastNamed(t);
    } else {
      NoneNamed(r.name);
    }
    if IsNew(f.last, r.name) {
      StepNew(t, f, r);
    } else {
      StepSame(t, f, r);
    }
  }

  lemma LastNamed(t: seq<Rec>)
    requires t != []
    ensures Named(t, t[|t| - 1].name)
  {
  }

  lemma NoneNamed(name: string)
    ensures !Named([], name)
  {
  }

  lemma TruncEmpty(name: string)
    ensures Trunc(name) == "" <==> name == ""
  {
  }

  lemma ValueNew(gs: seq<Group>, g: Group, name: string)
    ensures ValueOf(gs + [g], name) == if g.name == name then g.recs else ValueOf(gs, name)
  {
    assert (gs + [g])[..|gs|] == gs;
  }

  lemma ValueMore(gs: seq<Group>, x: string, name: string)
    requires gs != []
    ensures var n := |gs| - 1;
            ValueOf(gs[n := Group(gs[n].name, gs[n].recs + [x])], name) ==
            ValueOf(gs, name) + if gs[n].name == name then [x] else []
  {
    var n := |gs| - 1;
    assert gs[n := Group(gs[n].name, gs[n].recs + [x])][..n] == gs[..n];
    assert ValueOf(gs, name) + [] == ValueOf(gs, name);
  }

  lemma {:induction false} ValueNone(gs: seq<Group>, name: string)
    requires !InGroups(gs, name)
    ensures ValueOf(gs, name) == []
    decreases |gs|
  {
    if gs != [] {
      var t := gs[..|gs| - 1];
      assert forall i :: 0 <= i < |t| ==> t[i] == gs[i];
      ValueNone(t, name);
    }
  }

  lemma Cancel(a: seq<string>, b: seq<string>, c: seq<string>)
    ensures a + c == b + c <==> a == b
  {
    if a + c == b + c {
      assert (a + c)[..|a|] == a && (b + c)[..|b|] == b;
    }
  }

  lemma StepNew(t: seq<Rec>, f: Fold, r: Rec)
    requires Tracks(t, f) && IsNew(f.last, r.name)
    ensures var gs := Add(f.groups, f.last, r);
            && (!Named(t, r.name) && Distinct(f.groups) ==> Distinct(gs))
            && (StandsFor(gs, t + [r]) <==> StandsFor(f.groups, t) && !Named(t, r.name))
  {
    hide Distinct, Named, InGroups, ValueOf, Of, Trunc;
    var gs, g := f.groups, Group(r.name, [r.json]);
    if InGroups(gs, r.name) { OnlyNamed(t, f, r.name); }
    DistinctNew(gs, g);
    OfNone(t, r.name);
    if !Named(t, r.name) { ValueNone(gs, r.name); }
    forall name
      ensures ValueOf(gs + [g], name) == Of(t + [r], name) <==>
              if name == r.name then !Named(t, name) else ValueOf(gs, name) == Of(t, name)
    {
      ValueNew(gs, g, name);
      OfMore(t, r, name);
      if name == r.name { Cancel([], Of(t, name), [r.json]); }
      assert [] + [r.json] == [r.json] && Of(t, name) + [] == Of(t, name);
    }
    if StandsFor(gs + [g], t + [r]) {
      assert ValueOf(gs + [g], r.name) == Of(t + [r], r.name);
      forall name ensures ValueOf(gs, name) == Of(t, name) {
        assert ValueOf(gs + [g], name) == Of(t + [r], name);
      }
    }
  }

  lemma StepSame(t: seq<Rec>, f: Fold, r: Rec)
    requires Tracks(t, f) && !IsNew(f.last, r.name)
    ensures var gs, own := Add(f.groups, f.last, r), f.groups[|f.groups| - 1].name;
            && (Distinct(gs) <==> Distinct(f.groups)) && gs != [] && gs[|gs| - 1].name == own
            && (StandsFor(gs, t + [r]) <==> StandsFor(f.groups, t) && own == r.name)
  {
    hide Distinct, InGroups, ValueOf, Of, Named;
    var gs, n := f.groups, |f.groups| - 1;
    var g := Group(gs[n].name, gs[n].recs + [r.json]);
    DistinctSame(gs, g);
    if gs[n].name == r.name {
      forall name ensures ValueOf(gs[n := g], name) == Of(t + [r], name) <==> ValueOf(gs, name) == Of(t, name) {
        ValueMore(gs, r.json, name);
        OfMore(t, r, name);
        Cancel(ValueOf(gs, name), Of(t, name), if r.name == name then [r.json] else []);
      }
    } else {
      ValueMore(gs, r.json, r.name);
      OfMore(t, r, r.name);
    }
  }

  lemma OnlyNamed(t: seq<Rec>, f: Fold, name: string)
    requires Tracks(t, f) && InGroups(f.groups, name)
    ensures Named(t, name)
  {
    hide Named;
    var i :| 0 <= i < |f.groups| && f.groups[i].name == name;
    assert Named(t, f.groups[i].name);
  }
}
