/** The two dumps of a store, dumpToJson and dumpStreaming, from the tree to the text. */
module Dumper {
  import opened ByteOrder
  import opened PageNodes
  import opened BTree
  import opened CursorSearch
  import opened CursorStack
  import opened ObKeys
  import opened Cursors
  import opened ObReader
  import opened JsonStream
  import opened JsonDump
  import opened JsonText

  /** The names of the entities that the model knows, by id. */
  type Schema = map<int, string>

  /** The records of known entities; fields is the decoding of an object and its relations. */
  function RecsOf(objs: seq<ObjectRecord>, schema: Schema, fields: ObjectRecord -> string): seq<Rec> {
    if objs == [] then []
    else
      var n := |objs| - 1;
      RecsOf(objs[..n], schema, fields) +
      if objs[n].entityId in schema then [Rec(schema[objs[n].entityId], fields(objs[n]))] else []
  }

  /** The records are those of the known entities among the first n objects, in order. */
  ghost predicate Picked(objs: seq<ObjectRecord>, n: int, schema: Schema, fields: ObjectRecord -> string,
      recs: seq<Rec>, at: seq<int>)
  {
    && |at| == |recs| && 0 <= n <= |objs|
    && (forall i :: 0 <= i < |recs| ==> 0 <= at[i] < n && RecFrom(recs[i], objs[at[i]], schema, fields))
    && (forall i, j :: 0 <= i < j < |at| ==> at[i] < at[j])
    && forall k :: 0 <= k < n && objs[k].entityId in schema ==> k in at
  }

  // ---- the to-many relations of an object ----

  /** The relation ids of an entity. */
  type Relations = map<int, seq<int>>

  /** The text of an object: its record and, for each relation of its entity, the targets. */
  type Decoder = (ObjectRecord, seq<seq<int>>) -> string

  function RelationsOf(relations: Relations, entity: int): seq<int> {
    if entity in relations then relations[entity] else []
  }

  /** The targets of an object, one list for each relation. */
  function Links(all: seq<Node>, rels: seq<int>, source: UInt32): (r: seq<seq<int>>)
    ensures |r| == |rels| && forall i :: 0 <= i < |r| ==> r[i] == TargetsOf(all, rels[i], source)
  {
    seq(|rels|, i requires 0 <= i < |rels| => TargetsOf(all, rels[i], source))
  }

  /** What is put out for an object of the store. */
  function Complete(all: seq<Node>, relations: Relations, decode: Decoder): ObjectRecord -> string {
    (o: ObjectRecord) => decode(o, Links(all, RelationsOf(relations, o.entityId), o.objectId))
  }

  /** With ObjectBox's links and relation ids, those are exactly the targets linked forward from it. */
  lemma LinksExact(all: seq<Node>, rels: seq<int>, source: UInt32, i: int)
    requires Sorted(all) && LinksOk(all) && 0 <= i < |rels| && 0 <= rels[i] < 64
    ensures Linked(all, rels[i], source, Links(all, rels, source)[i])
    ensures var ts := Links(all, rels, source)[i]; forall j, k :: 0 <= j < k < |ts| ==> ts[j] < ts[k]
  {
    var key := Prefix(rels[i], source) + [0, 0, 0, 0];
    var r := BoundFrom(all, key, 0);
    BoundFound(all, key, 0);
    TargetsExact(all, rels[i], source, r);
    HitsAscend(all, Prefix(rels[i], source), r);
    hide Hits, LinksOk, Sorted;
    assert Links(all, rels, source)[i] == Hits(all, Prefix(rels[i], source), r);
  }

  lemma {:induction false} BoundFound(all: seq<Node>, key: Bytes, i: int)
    requires Sorted(all) && 0 <= i <= |all| && forall k :: 0 <= k < i ==> Lt(all[k].key, key)
    ensures IsBound(all, key, BoundFrom(all, key, i))
    decreases |all| - i
  {
    if i < |all| && Lt(all[i].key, key) {
      BoundFound(all, key, i + 1);
    } else {
      forall k | i <= k < |all| ensures Le(key, all[k].key) {
        Antisymmetric(all[i].key, key);
        if i < k { Transitive(key, all[i].key, all[k].key); }
      }
    }
  }

  method ReadLinks(root: Tree, ghost d: nat, rels: seq<int>, source: UInt32) returns (ts: seq<seq<int>>)
    requires Weak(root, d) && Sorted(InOrder(root)) && d < CURSOR_STACK
    ensures ts == Links(InOrder(root), rels, source)
  {
    hide Weak, Sorted, InOrder, TargetsOf, LinksOk, Linked;
    ts := [];
    while |ts| < |rels|
      invariant |ts| <= |rels| && forall i :: 0 <= i < |ts| ==> ts[i] == TargetsOf(InOrder(root), rels[i], source)
    {
      var targets := ToManyTargets(root, d, rels[|ts|], source);
      ts := ts + [targets];
    }
  }

  // ---- the records of a dump ----

  method Known(root: Tree, ghost d: nat, objs: seq<ObjectRecord>, schema: Schema, relations: Relations, decode: Decoder)
    returns (recs: seq<Rec>, ghost at: seq<int>)
    requires Weak(root, d) && Sorted(InOrder(root)) && d < CURSOR_STACK
    ensures var fields := Complete(InOrder(root), relations, decode);
            recs == RecsOf(objs, schema, fields) && Picked(objs, |objs|, schema, fields, recs, at)
  {
    hide Weak, Sorted, InOrder, Links, Picked;
    ghost var fields := Complete(InOrder(root), relations, decode);
    recs, at := [], [];
    PickedNone(objs, schema, fields);
    var i := 0;
    while i < |objs|
      invariant 0 <= i <= |objs| && recs == RecsOf(objs[..i], schema, fields)
      invariant Picked(objs, i, schema, fields, recs, at)
    {
      assert objs[..i + 1][..i] == objs[..i];
      var o := objs[i];
      PickedMore(objs, i, schema, fields, recs, at);
      if o.entityId in schema {
        var ts := ReadLinks(root, d, RelationsOf(relations, o.entityId), o.objectId);
        recs := recs + [Rec(schema[o.entityId], decode(o, ts))];
        at := at + [i];
      }
      i := i + 1;
    }
    assert objs[..i] == objs;
  }

  lemma PickedNone(objs: seq<ObjectRecord>, schema: Schema, fields: ObjectRecord -> string)
    ensures Picked(objs, 0, schema, fields, [], [])
  {
  }

  lemma PickedMore(objs: seq<ObjectRecord>, n: int, schema: Schema, fields: ObjectRecord -> string, recs: seq<Rec>,
      at: seq<int>)
    requires Picked(objs, n, schema, fields, recs, at) && n < |objs|
    ensures var o := objs[n];
            if o.entityId in schema
            then Picked(objs, n + 1, schema, fields, recs + [Rec(schema[o.entityId], fields(o))], at + [n])
            else Picked(objs, n + 1, schema, fields, recs, at)
  {
  }

  /** r is the record of the entry at place k of the store. */
  ghost predicate RecAt(all: seq<Node>, over: Overflow, schema: Schema, fields: ObjectRecord -> string, r: Rec, k: int)
  {
    exists o :: Answers(all, over, o, k) && RecFrom(r, o, schema, fields)
  }

  /** The records are those of the store's data entries whose entity the model knows: each of them
      once, in key order. */
  ghost predicate Dumped(all: seq<Node>, over: Overflow, schema: Schema, fields: ObjectRecord -> string,
      recs: seq<Rec>, pos: seq<int>)
  {
    && |pos| == |recs|
    && (forall i :: 0 <= i < |recs| ==> RecAt(all, over, schema, fields, recs[i], pos[i]))
    && (forall i, j :: 0 <= i < j < |pos| ==> pos[i] < pos[j])
    && forall k :: 0 <= k < |all| && IsObject(all[k]) && all[k].key[3] as int / 4 in schema ==> k in pos
  }

  /** The places in the store of the objects chosen from a walk. */
  ghost function Places(pos: seq<int>, at: seq<int>): (r: seq<int>)
    ensures |r| == |at|
  {
    seq(|at|, i requires 0 <= i < |at| => if 0 <= at[i] < |pos| then pos[at[i]] else -1)
  }

  /** A full walk and the choice of the known entities make a dump. */
  lemma WalkedDumped(all: seq<Node>, over: Overflow, schema: Schema, fields: ObjectRecord -> string,
      objs: seq<ObjectRecord>, pos: seq<int>, recs: seq<Rec>, at: seq<int>)
    requires Walked(all, over, objs, pos, |all|) && Picked(objs, |objs|, schema, fields, recs, at)
    ensures Dumped(all, over, schema, fields, recs, Places(pos, at))
  {
    hide RecFrom, Holding;
    var dump := Places(pos, at);
    forall i | 0 <= i < |recs| ensures RecAt(all, over, schema, fields, recs[i], dump[i]) {
      assert Answers(all, over, objs[at[i]], dump[i]) && RecFrom(recs[i], objs[at[i]], schema, fields);
    }
    forall k | 0 <= k < |all| && IsObject(all[k]) && all[k].key[3] as int / 4 in schema ensures k in dump {
      var j :| 0 <= j < |pos| && pos[j] == k;
      assert Answers(all, over, objs[j], pos[j]);
      assert objs[j].entityId == all[k].key[3] as int / 4;
      var i :| 0 <= i < |at| && at[i] == j;
      assert dump[i] == k;
    }
  }

  // ---- what a store must be like ----

  ghost predicate SchemaOk(schema: Schema) {
    && (forall a, b :: a in schema && b in schema && schema[a] == schema[b] ==> a == b)
    && (forall a :: a in schema ==> Fits(schema[a]) && NeedsNoEscape(schema[a]))
  }

  ghost predicate FieldsOk(fields: ObjectRecord -> string) { forall o :: IsValue(fields(o)) }

  ghost predicate DecoderOk(decode: Decoder) { forall o, ts :: IsValue(decode(o, ts)) }

  lemma FieldsComplete(all: seq<Node>, relations: Relations, decode: Decoder)
    requires DecoderOk(decode)
    ensures FieldsOk(Complete(all, relations, decode))
  {
    hide IsValue, Links;
    var fields := Complete(all, relations, decode);
    forall o: ObjectRecord ensures IsValue(fields(o)) {
      var ts := Links(all, RelationsOf(relations, o.entityId), o.objectId);
      assert IsValue(decode(o, ts));
    }
  }

  /** dumpStreaming under the writer of the command line tool. */
  method DumpStreaming(root: Tree, ghost d: nat, over: Overflow, schema: Schema, relations: Relations, decode: Decoder)
    returns (text: string, ghost recs: seq<Rec>, ghost pos: seq<int>)
    requires Weak(root, d) && Sorted(InOrder(root)) && d < CURSOR_STACK
    ensures Dumped(InOrder(root), over, schema, Complete(InOrder(root), relations, decode), recs, pos)
    ensures recs == RecsOf(Objects(InOrder(root), over), schema, Complete(InOrder(root), relations, decode))
    ensures text == Doc(Streamed(recs).groups)
    ensures DataKeysOk(InOrder(root)) && SchemaOk(schema) && DecoderOk(decode) ==> Means(text, recs)
  {
    hide Weak, Sorted, InOrder, Objects, RecsOf, SchemaOk, FieldsOk, DataKeysOk, Means, Walked, Picked, Dumped,
      DecoderOk, Complete;
    var objs, known;
    ghost var walk, at;
    objs, walk := ForEachObject(root, d, over, -1);
    assert objs == Objects(InOrder(root), over);
    known, at := Known(root, d, objs, schema, relations, decode);
    ghost var fields := Complete(InOrder(root), relations, decode);
    WalkedDumped(InOrder(root), over, schema, fields, objs, walk, known, at);
    recs, pos := known, Places(walk, at);
    text := StreamDump(known);
    if DataKeysOk(InOrder(root)) && SchemaOk(schema) && DecoderOk(decode) {
      FieldsComplete(InOrder(root), relations, decode);
      DumpsAgree(InOrder(root), over, schema, fields);
    }
  }

  /** dumpToJson. */
  method DumpToJson(root: Tree, ghost d: nat, over: Overflow, schema: Schema, relations: Relations, decode: Decoder)
    returns (result: map<string, seq<string>>, ghost recs: seq<Rec>, ghost pos: seq<int>)
    requires Weak(root, d) && Sorted(InOrder(root)) && d < CURSOR_STACK
    ensures Dumped(InOrder(root), over, schema, Complete(InOrder(root), relations, decode), recs, pos)
    ensures recs == RecsOf(Objects(InOrder(root), over), schema, Complete(InOrder(root), relations, decode))
    ensures ByName(result, recs)
  {
    hide Weak, Sorted, InOrder, Objects, RecsOf, ByName, Walked, Picked, Dumped, Complete;
    var objs, known;
    ghost var walk, at;
    objs, walk := ForEachObject(root, d, over, -1);
    assert objs == Objects(InOrder(root), over);
    known, at := Known(root, d, objs, schema, relations, decode);
    ghost var fields := Complete(InOrder(root), relations, decode);
    WalkedDumped(InOrder(root), over, schema, fields, objs, walk, known, at);
    recs, pos := known, Places(walk, at);
    result := BatchDump(known);
  }

  // ---- the dumps agree ----

  /** The text reads as a JSON object with one member for each entity that has records, which
      holds its records in order. */
  ghost predicate Means(text: string, recs: seq<Rec>) {
    && var r := ReadText(text);
    && r.Read? && Distinct(r.value)
    && forall name :: (InGroups(r.value, name) <==> Named(recs, name)) && ValueOf(r.value, name) == Of(recs, name)
  }

  /** Read as JSON, the streamed dump is the map that dumpToJson builds. */
  lemma SameMap(text: string, recs: seq<Rec>, result: map<string, seq<string>>)
    requires Means(text, recs) && ByName(result, recs)
    ensures forall name :: name in result <==> InGroups(ReadText(text).value, name)
    ensures forall name :: name in result ==> result[name] == ValueOf(ReadText(text).value, name)
  {
    hide ReadText;
  }

  /** What a record comes from. */
  ghost predicate RecFrom(r: Rec, o: ObjectRecord, schema: Schema, fields: ObjectRecord -> string) {
    o.entityId in schema && r == Rec(schema[o.entityId], fields(o))
  }

  ghost predicate SourceOf(r: Rec, objs: seq<ObjectRecord>, schema: Schema, fields: ObjectRecord -> string) {
    exists k :: 0 <= k < |objs| && RecFrom(r, objs[k], schema, fields)
  }

  lemma {:induction false} RecsFrom(objs: seq<ObjectRecord>, schema: Schema, fields: ObjectRecord -> string, i: int)
    requires 0 <= i < |RecsOf(objs, schema, fields)|
    ensures SourceOf(RecsOf(objs, schema, fields)[i], objs, schema, fields)
    decreases |objs|
  {
    var n := |objs| - 1;
    var t := objs[..n];
    var r := RecsOf(objs, schema, fields)[i];
    if i < |RecsOf(t, schema, fields)| {
      RecsFrom(t, schema, fields, i);
      var k :| 0 <= k < |t| && RecFrom(r, t[k], schema, fields);
      assert RecFrom(r, objs[k], schema, fields);
    } else {
      assert RecFrom(r, objs[n], schema, fields);
    }
  }

  /** Entity ids that never go down keep the records of an entity together. */
  ghost predicate InIdOrder(recs: seq<Rec>, schema: Schema) {
    forall i, j, a, b :: 0 <= i < j < |recs| && a in schema && b in schema && schema[a] == recs[i].name &&
      schema[b] == recs[j].name
      ==> a <= b
  }

  lemma {:induction false} OrderKept(objs: seq<ObjectRecord>, schema: Schema, fields: ObjectRecord -> string)
    requires ByEntity(objs) && SchemaOk(schema)
    ensures InIdOrder(RecsOf(objs, schema, fields), schema)
    decreases |objs|
  {
    if objs != [] {
      var n := |objs| - 1;
      var t := objs[..n];
      assert ByEntity(t) by { assert forall i :: 0 <= i < n ==> t[i] == objs[i]; }
      OrderKept(t, schema, fields);
      var rs, rs' := RecsOf(t, schema, fields), RecsOf(objs, schema, fields);
      forall i, j, a, b | 0 <= i < j < |rs'| && a in schema && b in schema && schema[a] == rs'[i].name &&
        schema[b] == rs'[j].name
        ensures a <= b
      {
        if j == |rs| {
          RecsFrom(t, schema, fields, i);
          var k :| 0 <= k < |t| && RecFrom(rs[i], t[k], schema, fields);
          assert a == objs[k].entityId && b == objs[n].entityId;
        } else {
          assert rs'[i] == rs[i] && rs'[j] == rs[j];
        }
      }
    }
  }

  ghost predicate InSchema(name: string, schema: Schema) { exists a :: a in schema && schema[a] == name }

  lemma {:induction false} OrderFaithful(recs: seq<Rec>, schema: Schema)
    requires InIdOrder(recs, schema) && SchemaOk(schema)
    requires forall i :: 0 <= i < |recs| ==> InSchema(recs[i].name, schema)
    ensures Faithful(recs)
  {
    hide Fits, NeedsNoEscape;
    forall i, j, k | 0 <= i < j < k < |recs| && recs[i].name == recs[k].name ensures recs[j].name == recs[i].name {
      assert InSchema(recs[i].name, schema);
      var a :| a in schema && schema[a] == recs[i].name;
      assert InSchema(recs[j].name, schema);
      var b :| b in schema && schema[b] == recs[j].name;
      assert a <= b && b <= a;
    }
    assert RepeatsFit(recs);
    forall i, j | 0 <= i < |recs| && 0 <= j < |recs| && j == i + 1 ensures Apart(recs[i].name, recs[j].name) {
      assert InSchema(recs[i].name, schema);
      var a :| a in schema && schema[a] == recs[i].name;
      assert Fits(schema[a]);
      FitsKept(schema[a]);
    }
  }

  lemma FitsKept(name: string)
    requires Fits(name)
    ensures Trunc(name) == name
  {
  }

  /** The members hold only texts and names of the records. */
  ghost predicate Sound(recs: seq<Rec>) {
    forall i :: 0 <= i < |recs| ==> NeedsNoEscape(recs[i].name) && IsValue(recs[i].json)
  }

  lemma AddOk(gs: seq<Group>, last: string, r: Rec)
    requires GroupsOk(gs) && NeedsNoEscape(r.name) && IsValue(r.json)
    ensures GroupsOk(Add(gs, last, r))
  {
    hide NeedsNoEscape, IsValue;
    var gs' := Add(gs, last, r);
    forall i | 0 <= i < |gs'| ensures GroupOk(gs'[i]) {
      if i < |gs| { assert GroupOk(gs[i]); }
    }
  }

  lemma {:induction false} StreamedOk(recs: seq<Rec>)
    requires Sound(recs)
    ensures GroupsOk(Streamed(recs).groups)
    decreases |recs|
  {
    hide NeedsNoEscape, IsValue;
    if recs != [] {
      var t, r := recs[..|recs| - 1], recs[|recs| - 1];
      assert forall i :: 0 <= i < |t| ==> t[i] == recs[i];
      StreamedOk(t);
      AddOk(Streamed(t).groups, Streamed(t).last, r);
    }
  }

  lemma {:induction false} GroupsNamed(gs: seq<Group>, recs: seq<Rec>, name: string)
    requires GroupsOk(gs) && StandsFor(gs, recs)
    ensures InGroups(gs, name) <==> Named(recs, name)
  {
    hide GroupsOk, InGroups, Named, ValueOf, Of;
    OfNone(recs, name);
    assert ValueOf(gs, name) == Of(recs, name);
    if InGroups(gs, name) {
      ValueSome(gs, name);
    } else {
      ValueNone(gs, name);
    }
  }

  lemma {:induction false} ValueSome(gs: seq<Group>, name: string)
    requires GroupsOk(gs) && InGroups(gs, name)
    ensures ValueOf(gs, name) != []
    decreases |gs|
  {
    var n := |gs| - 1;
    assert GroupOk(gs[n]);
    if gs[n].name != name {
      var t := gs[..n];
      var i :| 0 <= i < |gs| && gs[i].name == name;
      assert t[i].name == name;
      assert forall j :: 0 <= j < n ==> t[j] == gs[j];
      ValueSome(t, name);
    }
  }

  lemma {:induction false} RecsSound(objs: seq<ObjectRecord>, schema: Schema, fields: ObjectRecord -> string)
    requires SchemaOk(schema) && FieldsOk(fields)
    ensures var recs := RecsOf(objs, schema, fields);
            Sound(recs) && forall i :: 0 <= i < |recs| ==> InSchema(recs[i].name, schema)
  {
    hide RecsOf, IsValue, NeedsNoEscape, Fits;
    var recs := RecsOf(objs, schema, fields);
    forall i | 0 <= i < |recs|
      ensures NeedsNoEscape(recs[i].name) && IsValue(recs[i].json) && InSchema(recs[i].name, schema)
    {
      RecsFrom(objs, schema, fields, i);
      var k :| 0 <= k < |objs| && RecFrom(recs[i], objs[k], schema, fields);
      assert schema[objs[k].entityId] == recs[i].name;
    }
  }

  /** On a store with the keys that ObjectBox writes, and a model with distinct names of 1 to 255
      characters that need no escape, the streamed dump is a JSON text, opens every entity once,
      and stands for the same map as the in-memory dump. */
  lemma {:induction false} DumpsAgree(all: seq<Node>, over: Overflow, schema: Schema, fields: ObjectRecord -> string)
    requires Sorted(all) && DataKeysOk(all) && SchemaOk(schema) && FieldsOk(fields)
    ensures var recs := RecsOf(Objects(all, over), schema, fields); Means(Doc(Streamed(recs).groups), recs)
  {
    var objs := Objects(all, over);
    var recs := RecsOf(objs, schema, fields);
    EntitiesInOrder(all, over);
    hide Sorted, DataKeysOk, Objects, RecsOf, ByEntity, IsValue, NeedsNoEscape, InIdOrder, Fits;
    OrderKept(objs, schema, fields);
    RecsSound(objs, schema, fields);
    OrderFaithful(recs, schema);
    hide SchemaOk, FieldsOk, Faithful, StandsFor, Distinct, InGroups, Named, ValueOf, Of, GroupsOk, Doc, ReadText;
    StreamEqualsBatch(recs);
    StreamedOk(recs);
    var gs := Streamed(recs).groups;
    ReadBack(gs);
    forall name ensures (InGroups(gs, name) <==> Named(recs, name)) && ValueOf(gs, name) == Of(recs, name) {
      GroupsNamed(gs, recs, name);
      AgreeAt(gs, recs, name);
    }
  }

  lemma AgreeAt(gs: seq<Group>, recs: seq<Rec>, name: string)
    requires StandsFor(gs, recs)
    ensures ValueOf(gs, name) == Of(recs, name)
  {
  }

  // ---- names the writer loses track of ----

  /** An entity of empty name is opened again for each record, and only its last one counts. */
  lemma EmptyNameReopens(a: string, b: string)
    ensures !StandsFor(Streamed([Rec("", a), Rec("", b)]).groups, [Rec("", a), Rec("", b)])
  {
    var recs := [Rec("", a), Rec("", b)];
    assert recs[0].name == recs[1].name;
    assert !RepeatsFit(recs);
    StreamEqualsBatch(recs);
  }

  /** So is one whose name is longer than 255 characters. */
  lemma LongNameReopens(name: string, a: string, b: string)
    requires |name| >= LAST_SIZE
    ensures !StandsFor(Streamed([Rec(name, a), Rec(name, b)]).groups, [Rec(name, a), Rec(name, b)])
  {
    var recs := [Rec(name, a), Rec(name, b)];
    assert recs[0].name == recs[1].name;
    assert !RepeatsFit(recs);
    StreamEqualsBatch(recs);
  }

  /** And the records of an entity go to the one before it, if its name is the first 255
      characters of that one's longer name. */
  lemma CutNameMixes(name: string, a: string, b: string)
    requires |name| >= LAST_SIZE
    ensures var recs := [Rec(name, a), Rec(Trunc(name), b)];
            Streamed(recs).groups == [Group(name, [a, b])] && !StandsFor(Streamed(recs).groups, recs)
  {
    var r1, r2 := Rec(name, a), Rec(Trunc(name), b);
    var recs := [r1, r2];
    assert recs[..1] == [r1] && [r1][..0] == [];
    assert Streamed([]) == Fold([], "");
    assert [] + [Group(name, [a])] == [Group(name, [a])];
    assert Streamed([r1]) == Fold([Group(name, [a])], Trunc(name));
    assert Trunc(name) != "" && [a] + [b] == [a, b];
    assert Streamed(recs).groups == Add([Group(name, [a])], Trunc(name), r2);
    assert !Apart(recs[0].name, recs[1].name);
    assert !NoMix(recs);
    StreamEqualsBatch(recs);
  }
}
