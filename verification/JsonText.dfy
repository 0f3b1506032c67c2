/** A reader of JSON objects of arrays, after sections 2, 4, 5 and 7 of RFC 8259, and the proof
    that it reads back what the streaming writer wrote. */
module JsonText {
  import opened JsonStream

  /** What was read, and the text behind it. */
  datatype Read<T> = Fail | Read(value: T, rest: string)

  // ---- the reader ----

  predicate IsWs(c: char) { c == ' ' || c == '\t' || c == '\n' || c == '\r' }

  function SkipWs(s: string): (t: string)
    ensures |t| <= |s|
  {
    if s != [] && IsWs(s[0]) then SkipWs(s[1..]) else s
  }

  /** Behind white space and the character c, if it is there. */
  function Expect(c: char, s: string): (r: Read<()>)
    ensures r.Read? ==> |r.rest| < |s|
  {
    var t := SkipWs(s);
    if t != [] && t[0] == c then Read((), t[1..]) else Fail
  }

  /** Inside a value: how many brackets are open, and whether in a string or behind a backslash. */
  datatype At = Plain(depth: nat) | InString(depth: nat) | Escaped(depth: nat)

  /** A comma, a closing bracket or white space ends a value that has no bracket open. */
  predicate Stops(a: At, c: char) { a == Plain(0) && (IsWs(c) || c == ',' || c == ']' || c == '}') }

  function Step(a: At, c: char): At {
    match a
    case Plain(d) =>
      if c == '"' then InString(d)
      else if c == '[' || c == '{' then Plain(d + 1)
      else if (c == ']' || c == '}') && d > 0 then Plain(d - 1)
      else a
    case InString(d) => if c == '"' then Plain(d) else if c == '\\' then Escaped(d) else a
    case Escaped(d) => InString(d)
  }

  /** The length of the value that s starts with. */
  function ValueLen(s: string, a: At): (n: nat)
    ensures n <= |s|
  {
    if s == [] || Stops(a, s[0]) then 0 else 1 + ValueLen(s[1..], Step(a, s[0]))
  }

  /** Characters that stand for themselves in a string. */
  predicate Unescaped(c: char) { c >= ' ' && c != '"' && c != '\\' }

  function NameLen(s: string): (n: nat)
    ensures n <= |s|
  {
    if s != [] && Unescaped(s[0]) then 1 + NameLen(s[1..]) else 0
  }

  /** A string without escapes. */
  function ReadName(s: string): (r: Read<string>)
    ensures r.Read? ==> |r.rest| < |s|
  {
    var q := Expect('"', s);
    if q.Fail? then Fail
    else
      var n := NameLen(q.rest);
      if n < |q.rest| && q.rest[n] == '"' then Read(q.rest[..n], q.rest[n + 1..]) else Fail
  }

  /** value *( value-separator value ) end-array */
  function ReadElems(s: string): (r: Read<seq<string>>)
    ensures r.Read? ==> |r.rest| < |s|
    decreases |s|
  {
    var t := SkipWs(s);
    var n := ValueLen(t, Plain(0));
    var v, close, comma := t[..n], Expect(']', t[n..]), Expect(',', t[n..]);
    if n == 0 then Fail
    else if close.Read? then Read([v], close.rest)
    else if comma.Fail? then Fail
    else
      var more := ReadElems(comma.rest);
      if more.Fail? then Fail else Read([v] + more.value, more.rest)
  }

  /** begin-array [ value *( value-separator value ) ] end-array */
  function ReadArray(s: string): (r: Read<seq<string>>)
    ensures r.Read? ==> |r.rest| < |s|
  {
    var open := Expect('[', s);
    if open.Fail? then Fail
    else
      var close := Expect(']', open.rest);
      if close.Read? then Read([], close.rest) else ReadElems(open.rest)
  }

  /** string name-separator value */
  function ReadMember(s: string): (r: Read<Group>)
    ensures r.Read? ==> |r.rest| < |s|
  {
    var name := ReadName(s);
    if name.Fail? then Fail
    else
      var colon := Expect(':', name.rest);
      if colon.Fail? then Fail
      else
        var list := ReadArray(colon.rest);
        if list.Fail? then Fail else Read(Group(name.value, list.value), list.rest)
  }

  /** member *( value-separator member ) end-object */
  function ReadMembers(s: string): (r: Read<seq<Group>>)
    ensures r.Read? ==> |r.rest| < |s|
    decreases |s|
  {
    var m := ReadMember(s);
    if m.Fail? then Fail
    else
      var close, comma := Expect('}', m.rest), Expect(',', m.rest);
      if close.Read? then Read([m.value], close.rest)
      else if comma.Fail? then Fail
      else
        var more := ReadMembers(comma.rest);
        if more.Fail? then Fail else Read([m.value] + more.value, more.rest)
  }

  /** begin-object [ member *( value-separator member ) ] end-object, and nothing behind it. */
  function ReadText(s: string): Read<seq<Group>> {
    var open := Expect('{', s);
    if open.Fail? then Fail
    else
      var close := Expect('}', open.rest);
      var r := if close.Read? then Read([], close.rest) else ReadMembers(open.rest);
      if r.Read? && SkipWs(r.rest) == "" then r else Fail
  }

  // ---- what may be written ----

  /** Where a value stops that starts at a and runs through all of s without an end. */
  ghost predicate RunsThrough(s: string, a: At, b: At)
    decreases |s|
  {
    if s == [] then a == b else !Stops(a, s[0]) && RunsThrough(s[1..], Step(a, s[0]), b)
  }

  /** A text that ends where its brackets are closed, as JSON values in one line do. */
  ghost predicate IsValue(s: string) { s != [] && RunsThrough(s, Plain(0), Plain(0)) }

  ghost predicate NeedsNoEscape(name: string) { forall i :: 0 <= i < |name| ==> Unescaped(name[i]) }

  ghost predicate GroupOk(g: Group) {
    NeedsNoEscape(g.name) && g.recs != [] && forall i :: 0 <= i < |g.recs| ==> IsValue(g.recs[i])
  }

  ghost predicate GroupsOk(gs: seq<Group>) { forall i :: 0 <= i < |gs| ==> GroupOk(gs[i]) }

  // ---- reading back ----

  lemma Cons(c: char, t: string)
    ensures ([c] + t)[0] == c && ([c] + t)[1..] == t
  {
  }

  lemma SkipOne(c: char, t: string)
    ensures SkipWs([c] + t) == if IsWs(c) then SkipWs(t) else [c] + t
  {
    Cons(c, t);
  }

  lemma ExpectOne(c: char, x: char, t: string)
    requires !IsWs(c)
    ensures Expect(c, [x] + t) == if x == c then Read((), t) else if IsWs(x) then Expect(c, t) else Fail
  {
    Cons(x, t);
    SkipOne(x, t);
  }

  lemma {:induction false} ThroughValue(s: string, a: At, b: At, rest: string)
    requires RunsThrough(s, a, b)
    ensures ValueLen(s + rest, a) == |s| + ValueLen(rest, b)
    decreases |s|
  {
    if s == [] {
      assert s + rest == rest;
    } else {
      ThroughValue(s[1..], Step(a, s[0]), b, rest);
      assert (s + rest)[1..] == s[1..] + rest;
    }
  }

  lemma ValueEnds(s: string, c: char, rest: string)
    requires IsValue(s) && Stops(Plain(0), c)
    ensures var t := s + ([c] + rest);
            ValueLen(t, Plain(0)) == |s| && t[..|s|] == s && t[|s|..] == [c] + rest && SkipWs(t) == t
  {
    ThroughValue(s, Plain(0), Plain(0), [c] + rest);
    Cons(c, rest);
    var t := s + ([c] + rest);
    assert t[0] == s[0];
  }

  lemma {:induction false} NameEnds(name: string, rest: string)
    requires NeedsNoEscape(name)
    ensures NameLen(name + (['"'] + rest)) == |name|
    decreases |name|
  {
    var t := ['"'] + rest;
    if name == [] {
      assert name + t == t;
    } else {
      NameEnds(name[1..], rest);
      assert (name + t)[1..] == name[1..] + t;
    }
  }

  lemma NameBack(name: string, rest: string)
    requires NeedsNoEscape(name)
    ensures ReadName(['"'] + (name + (['"'] + rest))) == Read(name, rest)
  {
    var t := name + (['"'] + rest);
    ExpectOne('"', '"', t);
    NameEnds(name, rest);
    assert t[..|name|] == name && t[|name| + 1..] == rest;
  }

  // The pieces the writer puts out, as the reader meets them.

  const IN2: string := "\n  "
  const IN4: string := "\n    "

  lemma Indent(t: string)
    ensures IN2 + t == ['\n'] + ([' '] + ([' '] + t))
    ensures IN4 + t == ['\n'] + ([' '] + ([' '] + ([' '] + ([' '] + t))))
  {
  }

  lemma SkipIndent(t: string)
    ensures SkipWs(IN2 + t) == SkipWs(t) && SkipWs(IN4 + t) == SkipWs(t)
  {
    Indent(t);
    SkipOne(' ', t);
    SkipOne(' ', [' '] + t);
    SkipOne(' ', [' '] + ([' '] + t));
    SkipOne(' ', [' '] + ([' '] + ([' '] + t)));
    SkipOne('\n', [' '] + ([' '] + t));
    SkipOne('\n', [' '] + ([' '] + ([' '] + ([' '] + t))));
  }

  lemma {:induction false} ElemsFirst(recs: seq<string>)
    requires |recs| > 1
    ensures Elems(recs) == IN4 + recs[0] + "," + Elems(recs[1..])
    decreases |recs|
  {
    var n := |recs| - 1;
    var last := IN4 + recs[n];
    assert recs[1..][..n - 1] == recs[..n][1..];
    if n == 1 {
      ElemsOne(recs[0]);
      ElemsOne(recs[1]);
      assert recs[..1] == [recs[0]] && recs[1..] == [recs[1]];
    } else {
      ElemsFirst(recs[..n]);
      Join(IN4 + recs[0] + ",", Elems(recs[..n][1..]), "," + last);
      Join(Elems(recs[..n]), ",", last);
      Join(Elems(recs[..n][1..]), ",", last);
    }
  }

  lemma ElemsOne(x: string)
    ensures Elems([x]) == IN4 + x
  {
    EmptyLeft(IN4 + x);
  }

  lemma {:induction false} ElemsBack(recs: seq<string>, rest: string)
    requires recs != [] && forall i :: 0 <= i < |recs| ==> IsValue(recs[i])
    ensures ReadElems(Elems(recs) + ("\n  ]" + rest)) == Read(recs, rest)
    decreases |recs|
  {
    hide IsValue, Elems;
    var x, end := recs[0], "\n  ]" + rest;
    if |recs| == 1 {
      assert recs == [x];
      ElemsOne(x);
      LastElem(x, rest);
    } else {
      ElemsBack(recs[1..], rest);
      ElemsFirst(recs);
      NextElem(x, Elems(recs[1..]), end);
      assert recs == [x] + recs[1..];
    }
  }

  lemma LastElem(x: string, rest: string)
    requires IsValue(x)
    ensures ReadElems((IN4 + x) + ("\n  ]" + rest)) == Read([x], rest)
  {
    hide ReadElems, IsValue;
    var more := [' '] + ([' '] + ([']'] + rest));
    assert "\n  ]" + rest == ['\n'] + more;
    Join(IN4, x, ['\n'] + more);
    SkipIndent(x + (['\n'] + more));
    ValueEnds(x, '\n', more);
    assert x != [] by { NotEmpty(x); }
    ExpectOne(']', '\n', more);
    ExpectOne(']', ' ', [' '] + ([']'] + rest));
    ExpectOne(']', ' ', [']'] + rest);
    ExpectOne(']', ']', rest);
    ElemsIs((IN4 + x) + ("\n  ]" + rest));
  }

  lemma NotEmpty(x: string)
    requires IsValue(x)
    ensures x != []
  {
  }

  lemma NextElem(x: string, e: string, end: string)
    requires IsValue(x)
    ensures var more := ReadElems(e + end);
            ReadElems((IN4 + x + "," + e) + end) == if more.Fail? then Fail else Read([x] + more.value, more.rest)
  {
    hide ReadElems, IsValue;
    var more := e + end;
    Join(IN4 + x, ",", e);
    Join(IN4 + x, "," + e, end);
    Join(",", e, end);
    assert "," == [','];
    Join(IN4, x, [','] + more);
    SkipIndent(x + ([','] + more));
    ValueEnds(x, ',', more);
    assert x != [] by { NotEmpty(x); }
    ExpectOne(']', ',', more);
    ExpectOne(',', ',', more);
    ElemsIs((IN4 + x + "," + e) + end);
  }

  lemma ElemsIs(s: string)
    ensures ReadElems(s) ==
            var t := SkipWs(s);
            var n := ValueLen(t, Plain(0));
            var v, close, comma := t[..n], Expect(']', t[n..]), Expect(',', t[n..]);
            if n == 0 then Fail
            else if close.Read? then Read([v], close.rest)
            else if comma.Fail? then Fail
            else
              var more := ReadElems(comma.rest);
              if more.Fail? then Fail else Read([v] + more.value, more.rest)
  {
  }

  /** What a member looks like from its name on. */
  lemma MemberShape(g: Group, rest: string)
    ensures Member(g) + rest ==
            IN2 + (['"'] + (g.name + (['"'] + ([':'] + ([' '] + (['['] + (Elems(g.recs) + ("\n  ]" + rest))))))))
  {
    var e, end := Elems(g.recs), "\n  ]";
    hide Elems;
    var c := " [" + e;
    assert Quoted(g.name) == ['"'] + (g.name + ['"']);
    Join(IN2 + Quoted(g.name) + ":", c, end);
    Join(OpenMember(g), end, rest);
    Join(IN2 + Quoted(g.name) + ":", c, end + rest);
    Join(IN2 + Quoted(g.name), ":", c + (end + rest));
    Join(IN2, Quoted(g.name), ":" + (c + (end + rest)));
    Join(" [", e, end + rest);
    Join(Key(g.name), ":", c);
    assert " [" + (e + (end + rest)) == [' '] + (['['] + (e + (end + rest)));
    Join(['"'], g.name + ['"'], ":" + (c + (end + rest)));
    Join(g.name, ['"'], ":" + (c + (end + rest)));
  }

  /** The first element is not the end of the array. */
  lemma NotClosed(recs: seq<string>, rest: string)
    requires recs != [] && IsValue(recs[0])
    ensures Expect(']', Elems(recs) + rest).Fail?
  {
    var x := recs[0];
    var more := if |recs| == 1 then rest else "," + (Elems(recs[1..]) + rest);
    assert Elems(recs) + rest == IN4 + (x + more) by {
      if |recs| == 1 {
        assert recs == [x];
        ElemsOne(x);
        Join(IN4, x, rest);
      } else {
        ElemsFirst(recs);
        Join(IN4 + x, ",", Elems(recs[1..]));
        Join(IN4 + x, "," + Elems(recs[1..]), rest);
        Join(",", Elems(recs[1..]), rest);
        Join(IN4, x, more);
      }
    }
    SkipIndent(x + more);
    assert (x + more)[0] == x[0] && !Stops(Plain(0), x[0]);
  }

  lemma MemberBack(g: Group, rest: string)
    requires GroupOk(g)
    ensures ReadMember(Member(g) + rest) == Read(g, rest)
  {
    hide Member, Elems, IsValue, ReadElems;
    var e := Elems(g.recs) + ("\n  ]" + rest);
    var a := [' '] + (['['] + e);
    MemberShape(g, rest);
    SkipIndent(['"'] + (g.name + (['"'] + ([':'] + a))));
    assert ReadName(Member(g) + rest) == ReadName(['"'] + (g.name + (['"'] + ([':'] + a))));
    NameBack(g.name, [':'] + a);
    ExpectOne(':', ':', a);
    ExpectOne('[', ' ', ['['] + e);
    ExpectOne('[', '[', e);
    NotClosed(g.recs, "\n  ]" + rest);
    ElemsBack(g.recs, rest);
  }

  lemma {:induction false} MembersFirst(gs: seq<Group>)
    requires |gs| > 1
    ensures Members(gs) == Member(gs[0]) + ("," + Members(gs[1..]))
    decreases |gs|
  {
    hide Member;
    var n := |gs| - 1;
    var last := Member(gs[n]);
    assert gs[1..][..n - 1] == gs[..n][1..];
    if n == 1 {
      MembersOne(gs[0]);
      MembersOne(gs[1]);
      assert gs[..1] == [gs[0]] && gs[1..] == [gs[1]];
      Join(Member(gs[0]), ",", last);
    } else {
      MembersFirst(gs[..n]);
      var m := Members(gs[..n][1..]);
      Join(Member(gs[0]), "," + m, "," + last);
      Join(",", m, "," + last);
      Join(Members(gs[..n]), ",", last);
      Join(m, ",", last);
    }
  }

  lemma MembersOne(g: Group)
    ensures Members([g]) == Member(g)
  {
    EmptyLeft(Member(g));
  }

  lemma {:induction false} MembersBack(gs: seq<Group>)
    requires gs != [] && GroupsOk(gs)
    ensures ReadMembers(Members(gs) + "\n}\n") == Read(gs, "\n")
    decreases |gs|
  {
    hide GroupOk, Member, Members;
    var g, end := gs[0], "\n}\n";
    if |gs| == 1 {
      assert gs == [g];
      MembersOne(g);
      MemberBack(g, end);
      assert end == ['\n'] + (['}'] + "\n");
      ExpectOne('}', '\n', ['}'] + "\n");
      ExpectOne('}', '}', "\n");
    } else {
      assert GroupsOk(gs[1..]);
      MembersBack(gs[1..]);
      MembersFirst(gs);
      var more := Members(gs[1..]) + end;
      Join(Member(g), "," + Members(gs[1..]), end);
      Join(",", Members(gs[1..]), end);
      assert "," == [','];
      MemberBack(g, [','] + more);
      ExpectOne('}', ',', more);
      ExpectOne(',', ',', more);
      assert gs == [g] + gs[1..];
    }
  }

  /** A member does not look like the end of the object. */
  lemma NotEmptyObject(gs: seq<Group>, rest: string)
    requires gs != []
    ensures Expect('}', Members(gs) + rest).Fail?
  {
    hide Member;
    var g := gs[0];
    if |gs| == 1 {
      assert gs == [g];
      MembersOne(g);
      MemberOpens(g, rest);
    } else {
      MembersFirst(gs);
      Join(Member(g), "," + Members(gs[1..]), rest);
      MemberOpens(g, ("," + Members(gs[1..])) + rest);
    }
  }

  lemma MemberOpens(g: Group, rest: string)
    ensures Expect('}', Member(g) + rest).Fail?
  {
    hide Elems, Member;
    var t := g.name + (['"'] + ([':'] + ([' '] + (['['] + (Elems(g.recs) + ("\n  ]" + rest))))));
    MemberShape(g, rest);
    SkipIndent(['"'] + t);
    ExpectOne('}', '"', t);
  }

  /** What the streaming writer puts out is a JSON object of arrays, with these members in order. */
  lemma ReadBack(gs: seq<Group>)
    requires GroupsOk(gs)
    ensures ReadText(Doc(gs)) == Read(gs, "\n")
  {
    hide GroupOk, Members, ReadMembers;
    SkipOne('\n', "");
    assert ['\n'] + "" == "\n";
    if gs == [] {
      assert "{}\n" == ['{'] + (['}'] + "\n");
      ExpectOne('{', '{', ['}'] + "\n");
      ExpectOne('}', '}', "\n");
    } else {
      var t := Members(gs) + "\n}\n";
      Join("{", Members(gs), "\n}\n");
      assert "{" == ['{'];
      ExpectOne('{', '{', t);
      NotEmptyObject(gs, "\n}\n");
      MembersBack(gs);
    }
  }
}
