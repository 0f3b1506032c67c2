/** The streaming JSON writer of the command line tool: json_stream_cb and the closing
    brackets of run_json. */
module JsonStream {

  /** One record: its entity's name, and its fields as JSON. */
  datatype Rec = Rec(name: string, json: string)

  /** A run of records written under one name. */
  datatype Group = Group(name: string, recs: seq<string>)

  const LAST_SIZE := 256

  /** strncpy into lastEntity. */
  function Trunc(name: string): string {
    if |name| < LAST_SIZE then name else name[..LAST_SIZE - 1]
  }

  /** Does a record start a new member? */
  predicate IsNew(last: string, name: string) { last == "" || last != name }

  // ---- what is written ----

  function Quoted(name: string): string { "\"" + name + "\"" }

  function Elems(recs: seq<string>): string {
    if recs == [] then ""
    else
      var n := |recs| - 1;
      (if n == 0 then "" else Elems(recs[..n]) + ",") + ("\n    " + recs[n])
  }

  function Key(name: string): string { "\n  " + Quoted(name) }
  function OpenMember(g: Group): string { Key(g.name) + ":" + (" [" + Elems(g.recs)) }
  function Member(g: Group): string { OpenMember(g) + "\n  ]" }

  function Members(gs: seq<Group>): string {
    if gs == [] then ""
    else
      var n := |gs| - 1;
      (if n == 0 then "" else Members(gs[..n]) + ",") + Member(gs[n])
  }

  /** The text so far, with the last array still open. */
  function Open(gs: seq<Group>): string {
    if gs == [] then ""
    else
      var n := |gs| - 1;
      "{" + (if n == 0 then "" else Members(gs[..n]) + ",") + OpenMember(gs[n])
  }

  function Doc(gs: seq<Group>): string {
    if gs == [] then "{}\n" else "{" + Members(gs) + "\n}\n"
  }

  // ---- the writer ----

  /** The groups after one more record. */
  function Add(gs: seq<Group>, last: string, r: Rec): seq<Group> {
    if IsNew(last, r.name) || gs == [] then gs + [Group(r.name, [r.json])]
    else gs[|gs| - 1 := Group(gs[|gs| - 1].name, gs[|gs| - 1].recs + [r.json])]
  }

  function LastAfter(last: string, r: Rec): string {
    if IsNew(last, r.name) then Trunc(r.name) else last
  }

  class Writer {
    var out: string
    var last: string              // lastEntity
    var anyEntity: bool           // wroteAnyEntity
    var anyInEntity: bool         // wroteAnyInCurrentEntity
    ghost var groups: seq<Group>

    constructor ()
      ensures Valid() && groups == [] && last == ""
    {
      out, last, anyEntity, anyInEntity, groups := "", "", false, false, [];
    }

    ghost predicate Valid()
      reads this
    {
      && out == Open(groups) && (anyEntity <==> groups != []) && (anyInEntity <==> groups != [])
      && (groups == [] ==> last == "") && forall i :: 0 <= i < |groups| ==> groups[i].recs != []
    }

    /** json_stream_cb. */
    method Put(r: Rec)
      requires Valid()
      modifies this
      ensures Valid() && groups == Add(old(groups), old(last), r) && last == LastAfter(old(last), r)
    {
      hide Open, Quoted, Trunc;
      ghost var gs := groups;
      if groups == [] { OpenNone(); }
      var isNew := last == "" || last != r.name;
      if isNew {
        if anyEntity {
          out := out + "\n  ],\n";
        } else {
          out := out + "{\n";
        }
        out := out + ("  " + Quoted(r.name) + ": [\n");
        last := Trunc(r.name);
        anyEntity, anyInEntity := true, false;
      }
      if anyInEntity { out := out + ",\n"; }
      out := out + ("    " + r.json);
      anyInEntity := true;
      groups := Add(gs, old(last), r);
      if isNew {
        OpenNew(gs, r);
      } else {
        OpenMore(gs, r);
      }
    }

    /** The end of run_json. */
    method Finish() returns (text: string)
      requires Valid()
      ensures text == Doc(groups)
    {
      if anyEntity {
        CloseDoc(groups);
        text := out + "\n  ]\n}\n";
      } else {
        text := out + "{}\n";
      }
    }
  }

  lemma OpenNone()
    ensures Open([]) == ""
  {
  }

  lemma Join(a: string, b: string, c: string)
    ensures (a + b) + c == a + (b + c)
  {
  }

  lemma Literals()
    ensures "\n  " == "\n" + "  " && ": [\n" == ":" + (" [" + "\n") && "\n    " == "\n" + "    "
    ensures "\n  ],\n" == "\n  ]" + ("," + "\n") && "{\n" == "{" + "\n" && ",\n" == "," + "\n"
    ensures "\n  ]\n}\n" == "\n  ]" + "\n}\n"
  {
  }

  /** q is a quoted name: the pieces put out for a new member make up its start. */
  lemma MemberPieces(nl: string, sp: string, q: string, colon: string, open: string, in4: string, r: string)
    ensures ((nl + sp) + q) + (colon + (open + ((nl + in4) + r))) ==
            (nl + ((sp + q) + (colon + (open + nl)))) + (in4 + r)
  {
    var x := colon + (open + nl);
    Join(nl, sp, q);
    Join(nl, in4, r);
    Join(open, nl, in4 + r);
    Join(colon, open + nl, in4 + r);
    Join(nl, sp + q, x + (in4 + r));
    Join(nl, (sp + q) + x, in4 + r);
    Join(sp + q, x, in4 + r);
  }

  lemma NewMember(r: Rec)
    ensures OpenMember(Group(r.name, [r.json])) == ("\n" + ("  " + Quoted(r.name) + ": [\n")) + ("    " + r.json)
  {
    hide Quoted;
    Literals();
    assert Elems([r.json]) == "\n    " + r.json by { assert [r.json][..0] == []; EmptyLeft("\n    " + r.json); }
    MemberPieces("\n", "  ", Quoted(r.name), ":", " [", "    ", r.json);
    Join(Key(r.name), ":", " [" + ("\n    " + r.json));
  }

  lemma EmptyLeft(s: string)
    ensures "" + s == s
  {
  }

  /** Closing the last member completes the list of members. */
  lemma CloseMember(gs: seq<Group>)
    requires gs != []
    ensures Open(gs) + "\n  ]" == "{" + Members(gs)
  {
    hide OpenMember;
    var n := |gs| - 1;
    var front := if n == 0 then "" else Members(gs[..n]) + ",";
    Join("{" + front, OpenMember(gs[n]), "\n  ]");
    Join("{", front, Member(gs[n]));
  }

  lemma OpenNew(gs: seq<Group>, r: Rec)
    ensures Open(gs + [Group(r.name, [r.json])]) ==
            Open(gs) + (if gs == [] then "{\n" else "\n  ],\n") + ("  " + Quoted(r.name) + ": [\n") + ("    " + r.json)
  {
    var g := Group(r.name, [r.json]);
    var gs' := gs + [g];
    var start, rest := "  " + Quoted(r.name) + ": [\n", "    " + r.json;
    assert gs'[..|gs|] == gs;
    NewMember(r);
    Literals();
    hide OpenMember, Quoted;
    if gs == [] {
      OpenFirst(start, rest);
    } else {
      CloseMember(gs);
      hide Members, Open;
      OpenNext(Open(gs), Members(gs), start, rest);
      OpenAppend(gs, g);
    }
  }

  lemma OpenAppend(gs: seq<Group>, g: Group)
    requires gs != []
    ensures Open(gs + [g]) == "{" + (Members(gs) + ",") + OpenMember(g)
  {
    hide Members, OpenMember;
    assert (gs + [g])[..|gs|] == gs;
  }

  lemma OpenFirst(start: string, rest: string)
    ensures ("{" + "") + (("\n" + start) + rest) == (("" + "{\n") + start) + rest
  {
    Literals();
    EmptyLeft("{\n");
    assert "{" + "" == "{";
    Join("{", "\n" + start, rest);
    Join("{", "\n", start);
  }

  lemma OpenNext(open: string, members: string, start: string, rest: string)
    requires open + "\n  ]" == "{" + members
    ensures ("{" + (members + ",")) + (("\n" + start) + rest) == ((open + "\n  ],\n") + start) + rest
  {
    Literals();
    Join(open, "\n  ]", "," + "\n");
    Join("{", members, ",");
    var x := "{" + members;
    Join(x, ",", "\n");
    Join(x + ",", "\n" + start, rest);
    Join(x + ",", "\n", start);
  }

  lemma OpenMore(gs: seq<Group>, r: Rec)
    requires gs != [] && gs[|gs| - 1].recs != []
    ensures var n := |gs| - 1;
            Open(gs[n := Group(gs[n].name, gs[n].recs + [r.json])]) == Open(gs) + ",\n" + ("    " + r.json)
  {
    hide Members, Quoted;
    var n := |gs| - 1;
    var g := Group(gs[n].name, gs[n].recs + [r.json]);
    assert gs[n := g][..n] == gs[..n];
    var front := "{" + (if n == 0 then "" else Members(gs[..n]) + ",");
    MoreElems(gs[n].recs, r.json);
    hide Elems, Open;
    MorePieces(front, Key(g.name) + ":", " [", Elems(gs[n].recs), ",\n", "    " + r.json);
    OpenIs(gs);
    OpenIs(gs[n := g]);
  }

  lemma OpenIs(gs: seq<Group>)
    requires gs != []
    ensures Open(gs) == "{" + (if |gs| == 1 then "" else Members(gs[..|gs| - 1]) + ",") + OpenMember(gs[|gs| - 1])
  {
  }

  lemma MoreElems(recs: seq<string>, json: string)
    requires recs != []
    ensures Elems(recs + [json]) == Elems(recs) + (",\n" + ("    " + json))
  {
    assert (recs + [json])[..|recs|] == recs;
    Literals();
    hide Elems;
    var e := Elems(recs);
    ElemsAppend(recs, json);
    Join("\n", "    ", json);
    Join(e, ",", "\n" + ("    " + json));
    Join(",", "\n", "    " + json);
  }

  lemma ElemsAppend(recs: seq<string>, json: string)
    requires recs != []
    ensures Elems(recs + [json]) == (Elems(recs) + ",") + ("\n    " + json)
  {
    assert (recs + [json])[..|recs|] == recs;
  }

  lemma MorePieces(front: string, key: string, open: string, e: string, x: string, y: string)
    ensures front + (key + (open + (e + (x + y)))) == ((front + (key + (open + e))) + x) + y
  {
    Join(e, x, y);
    Join(open, e + x, y);
    Join(open, e, x);
    Join(key, (open + e) + x, y);
    Join(key, open + e, x);
    Join(front, (key + (open + e)) + x, y);
    Join(front, key + (open + e), x);
  }

  lemma CloseDoc(gs: seq<Group>)
    requires gs != []
    ensures Open(gs) + "\n  ]\n}\n" == Doc(gs)
  {
    CloseMember(gs);
    Literals();
    hide Open, Members;
    Join(Open(gs), "\n  ]", "\n}\n");
  }
}
