/** The two threads of a compacting copy: mdb_env_cwalk fills one buffer while
    mdb_env_copythr writes the other; mdb_env_cthr_toggle hands them over. */
module CopyThreads {
  import opened ByteOrder

  datatype Owner = Free | Provider | Writer

  /** Where the provider is; `last` says that MDB_EOF is handed over too. */
  datatype PPc = Fill | Inside(last: bool) | Asleep(last: bool) | Leaving(last: bool) | Ended

  /** Where the writer is: outside the mutex, looking for work, writing a buffer from `pos`
      on, writing an overflow tail, or done. */
  datatype WPc = Outside | Look | Main(pos: int) | Tail(rest: Bytes) | Exit

  /** `pending` and `eof` are the two parts of mc_new; `handed` is what was given to the
      writer so far, `returned` how many buffers it gave back, `out` the file. */
  datatype State = State(buf: seq<Bytes>, over: seq<Bytes>, pending: int, eof: bool, ptog: int, wtog: int,
                         error: bool, out: Bytes, handed: seq<Bytes>, returned: int,
                         mutex: Owner, p: PPc, w: WPc)

  datatype Label =
    | PPut(x: Bytes)          // append a page
    | POver(x: Bytes)         // note an overflow tail
    | PFail                   // the walk failed: mc_error
    | PEnter(last: bool)      // mdb_env_cthr_toggle: lock, add to mc_new
    | PWait
    | PWake
    | PLeave
    | PReset
    | WEnter                  // mdb_env_copythr
    | WWait
    | WExit
    | WTake
    | WWrite(k: int)          // a write() of k bytes
    | WFail
    | WDone                   // this part is written, or given up

  predicate Enabled(s: State, l: Label) {
    |s.buf| == |s.over| == 2 && 0 <= s.ptog < 2 && 0 <= s.wtog < 2 &&
    match l
    case PPut(_) => s.p.Fill?
    case POver(_) => s.p.Fill?
    case PFail => s.p.Fill?
    case PEnter(_) => s.p.Fill? && s.mutex.Free?
    case PWait => s.p.Inside? && s.pending >= 2
    case PWake => s.p.Asleep? && s.mutex.Free?
    case PLeave => s.p.Inside? && s.pending < 2
    case PReset => s.p.Leaving?
    case WEnter => s.w.Outside? && s.mutex.Free?
    case WWait => s.w.Look? && s.pending == 0 && !s.eof
    case WExit => s.w.Look? && s.pending == 0 && s.eof
    case WTake => s.w.Look? && s.pending > 0
    case WWrite(k) => !s.error && 0 < k <= |Left(s)| && (s.w.Main? || s.w.Tail?)
    case WFail => !s.error && Left(s) != [] && (s.w.Main? || s.w.Tail?)
    case WDone => (s.w.Main? || s.w.Tail?) && (Left(s) == [] || s.error)
  }

  /** What the writer has yet to write of the part it is at. */
  function Left(s: State): Bytes
    requires |s.buf| == 2 && 0 <= s.wtog < 2
  {
    match s.w
    case Main(pos) => if 0 <= pos <= |s.buf[s.wtog]| then s.buf[s.wtog][pos..] else []
    case Tail(rest) => rest
    case _ => []
  }

  function Next(s: State, l: Label): State
    requires Enabled(s, l)
  {
    match l
    case PPut(x) => s.(buf := s.buf[s.ptog := s.buf[s.ptog] + x])
    case POver(x) => s.(over := s.over[s.ptog := x])
    case PFail => s.(error := true)
    case PEnter(last) =>
      s.(mutex := Provider, p := Inside(last), pending := s.pending + 1, eof := s.eof || last,
         handed := s.handed + [s.buf[s.ptog] + s.over[s.ptog]])
    case PWait => s.(mutex := Free, p := Asleep(s.p.last))
    case PWake => s.(mutex := Provider, p := Inside(s.p.last))
    case PLeave => s.(mutex := Free, p := Leaving(s.p.last))
    case PReset =>
      var t := 1 - s.ptog;
      s.(ptog := t, buf := s.buf[t := []], p := if s.p.last then Ended else Fill)
    case WEnter => s.(mutex := Writer, w := Look)
    case WWait => s.(mutex := Free, w := Outside)
    case WExit => s.(mutex := Free, w := Exit)
    case WTake => s.(w := Main(0))
    case WWrite(k) =>
      s.(out := s.out + Left(s)[..k],
         w := if s.w.Main? then Main(s.w.pos + k) else Tail(s.w.rest[k..]))
    case WFail => s.(error := true)
    case WDone =>
      var t := s.wtog;
      if s.over[t] != [] then s.(w := Tail(s.over[t]), over := s.over[t := []])
      else s.(buf := s.buf[t := []], wtog := 1 - t, pending := s.pending - 1, returned := s.returned + 1, w := Look)
  }

  const START := State([[], []], [[], []], 0, false, 0, 0, false, [], [], 0, Free, Fill, Outside)

  ghost predicate IsRun(ss: seq<State>, ls: seq<Label>) {
    && |ss| == |ls| + 1 && ss[0] == START
    && forall k :: 0 <= k < |ls| ==> Takes(ss[k], ls[k], ss[k + 1])
  }

  ghost predicate Takes(s: State, l: Label, s': State) { Enabled(s, l) && s' == Next(s, l) }

  // ---- the invariant ----

  function Flat(ss: seq<Bytes>): Bytes {
    if ss == [] then [] else Flat(ss[..|ss| - 1]) + ss[|ss| - 1]
  }

  predicate InToggle(p: PPc) { p.Inside? || p.Asleep? || p.Leaving? }
  predicate Writing(w: WPc) { w.Main? || w.Tail? }

  /** What is left to write of the oldest buffer handed over. */
  function Rest(s: State): Bytes
    requires |s.buf| == |s.over| == 2 && 0 <= s.wtog < 2
  {
    if s.w.Tail? then s.w.rest
    else if s.w.Main? then Left(s) + s.over[s.wtog]
    else s.buf[s.wtog] + s.over[s.wtog]
  }

  /** All that is handed over and not yet written. */
  function Outstanding(s: State): Bytes
    requires |s.buf| == |s.over| == 2 && 0 <= s.wtog < 2
  {
    (if s.pending >= 1 then Rest(s) else []) + if s.pending >= 2 then s.buf[1 - s.wtog] + s.over[1 - s.wtog] else []
  }

  predicate Shape(s: State) {
    && |s.buf| == |s.over| == 2 && 0 <= s.pending <= 2 && 0 <= s.returned
    && s.pending == |s.handed| - s.returned
    && s.wtog == s.returned % 2
    && s.ptog == (if InToggle(s.p) then |s.handed| + 1 else |s.handed|) % 2
    && (s.p.Fill? || s.p.Leaving? || s.p.Ended? ==> s.pending <= 1)
    && (Writing(s.w) ==> 1 <= s.pending) && (s.w.Main? ==> 0 <= s.w.pos <= |s.buf[s.wtog]|)
    && (s.w.Tail? ==> s.over[s.wtog] == [])
  }

  /** Who may be where. */
  predicate Turns(s: State) {
    && (s.mutex.Provider? <==> s.p.Inside?)
    && (s.mutex.Writer? <==> s.w.Look? || Writing(s.w))
    && (s.eof <==> s.p.Ended? || (InToggle(s.p) && s.p.last))
    && (s.w.Exit? ==> s.pending == 0 && s.eof)
  }

  /** A buffer nobody handed over has no tail, but for the one being filled. */
  predicate Tails(s: State)
    requires Shape(s)
  {
    && (s.pending == 0 && !s.p.Fill? ==> s.over[s.wtog] == [] && s.over[1 - s.wtog] == [])
    && (s.pending == 0 && s.p.Fill? ==> s.over[1 - s.wtog] == [])
    && (s.pending == 1 && !s.p.Fill? ==> s.over[1 - s.wtog] == [])
  }

  ghost predicate Delivered(s: State)
    requires Shape(s)
  {
    && (!s.error ==> s.out + Outstanding(s) == Flat(s.handed))
    && s.out <= Flat(s.handed)
  }

  ghost predicate Inv(s: State) {
    Shape(s) && Turns(s) && Tails(s) && Delivered(s)
  }

  lemma FlatMore(ss: seq<Bytes>, x: Bytes)
    ensures Flat(ss + [x]) == Flat(ss) + x
  {
    assert (ss + [x])[..|ss|] == ss;
  }

  lemma Flip(n: int)
    ensures (n + 1) % 2 == 1 - n % 2 && (n + 2) % 2 == n % 2
  {
  }

  predicate OfProvider(l: Label) {
    l.PPut? || l.POver? || l.PFail? || l.PEnter? || l.PWait? || l.PWake? ||
    l.PLeave? || l.PReset?
  }

  lemma ProviderShape(s: State, l: Label)
    requires Shape(s) && Turns(s) && Tails(s) && Enabled(s, l) && OfProvider(l)
    ensures Shape(Next(s, l)) && Turns(Next(s, l)) && Tails(Next(s, l))
  {
    Flip(|s.handed|);
    Flip(s.returned);
  }

  lemma WriterShape(s: State, l: Label)
    requires Shape(s) && Turns(s) && Enabled(s, l) && !OfProvider(l)
    ensures Shape(Next(s, l)) && Turns(Next(s, l))
  {
    Flip(s.returned);
    if l.WDone? { DoneShape(s); }
  }

  lemma DoneShape(s: State)
    requires Shape(s) && Turns(s) && Enabled(s, WDone)
    ensures Shape(Next(s, WDone)) && Turns(Next(s, WDone))
  {
    Flip(s.returned);
  }

  lemma WriterTails(s: State, l: Label)
    requires Shape(s) && Turns(s) && Tails(s) && Enabled(s, l) && !OfProvider(l) && Shape(Next(s, l))
    ensures Tails(Next(s, l))
  {
    Flip(s.returned);
  }

  lemma ShapeNext(s: State, l: Label)
    requires Inv(s) && Enabled(s, l)
    ensures Shape(Next(s, l)) && Turns(Next(s, l)) && Tails(Next(s, l))
  {
    hide Shape, Turns, Tails, Delivered, Enabled, Next;
    if OfProvider(l) {
      ProviderShape(s, l);
    } else {
      WriterShape(s, l);
      WriterTails(s, l);
    }
  }

  /** Steps that change no buffer handed over, nor what was written. */
  lemma Untouched(s: State, s': State)
    requires Shape(s) && Shape(s') && Delivered(s) && s'.out == s.out && s'.handed == s.handed
    requires Outstanding(s') == Outstanding(s) && (s.error ==> s'.error)
    ensures Delivered(s')
  {
  }

  lemma FillNext(s: State, l: Label)
    requires Inv(s) && Enabled(s, l) && Shape(Next(s, l)) && (l.PPut? || l.POver? || l.PFail? || l.PReset?)
    ensures Delivered(Next(s, l))
  {
    hide Turns, Tails, Flat, Outstanding;
    FillOutstanding(s, l);
    Untouched(s, Next(s, l));
  }

  lemma FillOutstanding(s: State, l: Label)
    requires Shape(s) && Enabled(s, l) && Shape(Next(s, l)) && (l.PPut? || l.POver? || l.PFail? || l.PReset?)
    ensures Outstanding(Next(s, l)) == Outstanding(s)
  {
    Flip(s.returned);
    Flip(|s.handed|);
    assert s.pending >= 1 ==> (if l.PReset? then 1 - s.ptog else s.ptog) == 1 - s.wtog;
  }

  lemma HandMore(out: Bytes, o: Bytes, f: Bytes, x: Bytes)
    requires out <= f
    ensures out <= f + x && (out + o == f ==> out + (o + x) == f + x)
  {
    assert out + (o + x) == (out + o) + x;
  }

  lemma WriteMore(out: Bytes, more: Bytes, o: Bytes, f: Bytes)
    requires out + (more + o) == f
    ensures (out + more) + o == f && out + more <= f
  {
    assert out + (more + o) == (out + more) + o;
  }

  lemma EnterNext(s: State, last: bool)
    requires Inv(s) && Enabled(s, PEnter(last)) && Shape(Next(s, PEnter(last)))
    ensures Delivered(Next(s, PEnter(last)))
  {
    hide Turns, Tails, Flat;
    EnterOutstanding(s, last);
    var x := s.buf[s.ptog] + s.over[s.ptog];
    FlatMore(s.handed, x);
    HandMore(s.out, Outstanding(s), Flat(s.handed), x);
    hide Outstanding;
  }

  lemma EnterOutstanding(s: State, last: bool)
    requires Shape(s) && Turns(s) && Enabled(s, PEnter(last)) && Shape(Next(s, PEnter(last)))
    ensures Outstanding(Next(s, PEnter(last))) == Outstanding(s) + (s.buf[s.ptog] + s.over[s.ptog])
  {
    Flip(s.returned);
  }

  lemma WriteNext(s: State, k: int)
    requires Inv(s) && Enabled(s, WWrite(k)) && Shape(Next(s, WWrite(k)))
    ensures Delivered(Next(s, WWrite(k)))
  {
    hide Turns, Tails, Flat, Outstanding, Left;
    WriteOutstanding(s, k);
    WriteMore(s.out, Left(s)[..k], Outstanding(Next(s, WWrite(k))), Flat(s.handed));
  }

  lemma Join3(a: Bytes, b: Bytes, c: Bytes)
    ensures (a + b) + c == a + (b + c)
  {
  }

  lemma LeftSplit(s: State, k: int)
    requires Shape(s) && Enabled(s, WWrite(k)) && Shape(Next(s, WWrite(k)))
    ensures Left(s) == Left(s)[..k] + Left(Next(s, WWrite(k)))
    ensures s.w.Tail? ==> Left(s) == s.w.rest && Left(Next(s, WWrite(k))) == Next(s, WWrite(k)).w.rest
  {
  }

  lemma WriteOutstanding(s: State, k: int)
    requires Shape(s) && Enabled(s, WWrite(k)) && Shape(Next(s, WWrite(k)))
    ensures Outstanding(s) == Left(s)[..k] + Outstanding(Next(s, WWrite(k)))
  {
    var s' := Next(s, WWrite(k));
    var more := Left(s)[..k];
    LeftSplit(s, k);
    Join3(more, Left(s'), s.over[s.wtog]);
    hide Left;
    assert Rest(s) == more + Rest(s');
    Join3(more, Rest(s'), if s.pending >= 2 then s.buf[1 - s.wtog] + s.over[1 - s.wtog] else []);
    hide Rest;
  }

  lemma DoneNext(s: State)
    requires Inv(s) && Enabled(s, WDone) && Shape(Next(s, WDone))
    ensures Delivered(Next(s, WDone))
  {
    if !s.error { DoneOutstanding(s); }
    hide Outstanding, Flat, Tails, Turns;
  }

  lemma DoneOutstanding(s: State)
    requires Shape(s) && Enabled(s, WDone) && Shape(Next(s, WDone)) && !s.error
    ensures Outstanding(Next(s, WDone)) == Outstanding(s)
  {
    hide Outstanding, Shape;
    if s.over[s.wtog] != [] { MainDone(s); } else { BufferDone(s); }
  }

  lemma MainRest(s: State)
    requires Shape(s) && Enabled(s, WDone) && !s.error && s.over[s.wtog] != []
    ensures Rest(s) == s.over[s.wtog]
  {
    assert s.w.Main? && Left(s) == [];
  }

  lemma MainDone(s: State)
    requires Shape(s) && Enabled(s, WDone) && !s.error && s.over[s.wtog] != []
    ensures Outstanding(Next(s, WDone)) == Outstanding(s)
  {
    MainRest(s);
    var s' := Next(s, WDone);
    assert Rest(s') == s.over[s.wtog] && s'.buf == s.buf && s'.pending == s.pending && s'.wtog == s.wtog;
    assert s'.over[1 - s.wtog] == s.over[1 - s.wtog];
    hide Rest, Shape, Enabled, Next, Left;
  }

  lemma BufferDone(s: State)
    requires Shape(s) && Enabled(s, WDone) && !s.error && s.over[s.wtog] == []
    ensures Outstanding(Next(s, WDone)) == Outstanding(s)
  {
    var t := s.wtog;
    assert Rest(s) == [];
    if s.pending >= 2 {
      assert Rest(Next(s, WDone)) == s.buf[1 - t] + s.over[1 - t];
    }
  }

  /** Every step of either thread keeps the invariant. */
  lemma InvNext(s: State, l: Label)
    requires Inv(s) && Enabled(s, l)
    ensures Inv(Next(s, l))
  {
    ShapeNext(s, l);
    hide Turns, Tails, Flat;
    match l
    case PPut(_) => FillNext(s, l);
    case POver(_) => FillNext(s, l);
    case PFail => FillNext(s, l);
    case PReset => FillNext(s, l);
    case PEnter(last) => EnterNext(s, last);
    case WWrite(k) => WriteNext(s, k);
    case WDone => DoneNext(s);
    case _ => OtherNext(s, l);
  }

  lemma OtherNext(s: State, l: Label)
    requires Inv(s) && Enabled(s, l) && Shape(Next(s, l))
    requires !l.PPut? && !l.POver? && !l.PFail? && !l.PReset? && !l.PEnter? && !l.WWrite? && !l.WDone?
    ensures Delivered(Next(s, l))
  {
    hide Turns, Tails, Flat, Outstanding;
    RestKept(s, l);
    Untouched(s, Next(s, l));
  }

  lemma RestKept(s: State, l: Label)
    requires Inv(s) && Enabled(s, l) && Shape(Next(s, l))
    requires !l.PPut? && !l.POver? && !l.PFail? && !l.PReset? && !l.PEnter? && !l.WWrite? && !l.WDone?
    ensures Outstanding(Next(s, l)) == Outstanding(s)
  {
    hide Turns, Tails, Flat;
    if l.WTake? {
      assert s.buf[s.wtog][0..] == s.buf[s.wtog];
    }
  }

  // ---- runs ----

  lemma {:induction false} RunInv(ss: seq<State>, ls: seq<Label>, k: nat)
    requires IsRun(ss, ls) && k <= |ls|
    ensures Inv(ss[k])
  {
    hide Inv, Enabled, Next;
    if k == 0 {
      StartInv();
    } else {
      RunInv(ss, ls, k - 1);
      assert Takes(ss[k - 1], ls[k - 1], ss[k - 1 + 1]);
      InvNext(ss[k - 1], ls[k - 1]);
    }
  }

  lemma StartInv()
    ensures Inv(START)
  {
  }

  /** In every interleaving: the buffer being filled is not the one being written, the file
      is a beginning of what was handed over, in order, and while no error was met only the
      bytes still in the buffers are missing. */
  lemma HandOff(ss: seq<State>, ls: seq<Label>, k: nat)
    requires IsRun(ss, ls) && k <= |ls|
    ensures var s := ss[k];
            && (s.p.Fill? && Writing(s.w) ==> s.ptog != s.wtog)
            && s.out <= Flat(s.handed)
            && (!s.error && s.pending == 0 ==> s.out == Flat(s.handed))
  {
    RunInv(ss, ls, k);
    Flip(ss[k].returned);
    assert ss[k].out + [] == ss[k].out;
  }

  /** The writer stops only when everything that will ever be handed over is dealt with; if
      there was no error, the file is exactly that. */
  lemma WriterStops(ss: seq<State>, ls: seq<Label>, k: nat, j: nat)
    requires IsRun(ss, ls) && k <= j <= |ls| && ss[k].w.Exit?
    ensures ss[j].handed == ss[k].handed && ss[j].w.Exit?
    ensures !ss[j].error ==> ss[j].out == Flat(ss[j].handed)
  {
    RunInv(ss, ls, j);
    assert ss[j].out + [] == ss[j].out;
    ExitStays(ss, ls, k, j);
  }

  lemma {:induction false} ExitStays(ss: seq<State>, ls: seq<Label>, k: nat, j: nat)
    requires IsRun(ss, ls) && k <= j <= |ls| && ss[k].w.Exit?
    ensures ss[j].handed == ss[k].handed && ss[j].w.Exit? && Inv(ss[j])
  {
    hide Inv, Enabled, Next;
    RunInv(ss, ls, j);
    if k < j {
      ExitStays(ss, ls, k, j - 1);
      assert Takes(ss[j - 1], ls[j - 1], ss[j - 1 + 1]);
      ExitNext(ss[j - 1], ls[j - 1]);
    }
  }

  lemma ExitNext(s: State, l: Label)
    requires Inv(s) && Enabled(s, l) && s.w.Exit?
    ensures Next(s, l).handed == s.handed && Next(s, l).w.Exit?
  {
    hide Flat, Outstanding, Delivered, Tails;
  }

  // ---- what the provider produced ----

  /** The pages put and the tails noted, as the labels tell: up to the last hand-over, and since. */
  datatype Stream = Stream(done: Bytes, page: Bytes, tail: Bytes)

  /** Pages in order, and the tail of a hand-over after its pages. */
  function Produced(ls: seq<Label>): Stream {
    if ls == [] then Stream([], [], [])
    else
      var m := Produced(ls[..|ls| - 1]);
      match ls[|ls| - 1]
      case PPut(x) => m.(page := m.page + x)
      case POver(x) => m.(tail := x)
      case PEnter(_) => Stream(m.done + (m.page + m.tail), [], [])
      case _ => m
  }

  /** What was handed over, and the buffer being filled, are what was produced. */
  ghost predicate Keeps(s: State, m: Stream)
    requires Shape(s)
  {
    && Flat(s.handed) == m.done
    && if s.p.Fill? then m.page == s.buf[s.ptog] && m.tail == s.over[s.ptog] else m.page == [] && m.tail == []
  }

  lemma ProducedNext(ls: seq<Label>, l: Label)
    ensures var m, m' := Produced(ls), Produced(ls + [l]);
            && (l.PPut? ==> m' == m.(page := m.page + l.x))
            && (l.POver? ==> m' == m.(tail := l.x))
            && (l.PEnter? ==> m' == Stream(m.done + (m.page + m.tail), [], []))
            && (!l.PPut? && !l.POver? && !l.PEnter? ==> m' == m)
  {
    assert (ls + [l])[..|ls|] == ls;
  }

  lemma FillKeeps(s: State, l: Label, m: Stream, m': Stream)
    requires Inv(s) && Enabled(s, l) && Keeps(s, m) && Shape(Next(s, l)) && (l.PPut? || l.POver? || l.PFail?)
    requires m' == if l.PPut? then m.(page := m.page + l.x) else if l.POver? then m.(tail := l.x) else m
    ensures Keeps(Next(s, l), m')
  {
    hide Delivered, Outstanding, Flat, Turns, Tails;
  }

  lemma EnterKeeps(s: State, l: Label, m: Stream)
    requires Inv(s) && Enabled(s, l) && Keeps(s, m) && Shape(Next(s, l)) && l.PEnter?
    ensures Keeps(Next(s, l), Stream(m.done + (m.page + m.tail), [], []))
  {
    FlatMore(s.handed, s.buf[s.ptog] + s.over[s.ptog]);
    hide Delivered, Outstanding, Flat, Turns, Tails;
  }

  lemma ToggleKeeps(s: State, l: Label, m: Stream)
    requires Inv(s) && Enabled(s, l) && Keeps(s, m) && Shape(Next(s, l))
    requires l.PWait? || l.PWake? || l.PLeave? || l.PReset?
    ensures Keeps(Next(s, l), m)
  {
    Flip(s.returned);
    Flip(|s.handed|);
    hide Delivered, Outstanding, Flat, Turns;
  }

  lemma WriterKeeps(s: State, l: Label, m: Stream)
    requires Inv(s) && Enabled(s, l) && Keeps(s, m) && Shape(Next(s, l)) && !OfProvider(l)
    ensures Keeps(Next(s, l), m)
  {
    Flip(s.returned);
    hide Delivered, Outstanding, Flat, Turns, Tails;
  }

  lemma KeepsNext(s: State, l: Label, ls: seq<Label>)
    requires Inv(s) && Enabled(s, l) && Keeps(s, Produced(ls)) && Shape(Next(s, l))
    ensures Keeps(Next(s, l), Produced(ls + [l]))
  {
    hide Inv, Enabled, Next, Keeps, Produced;
    ProducedNext(ls, l);
    var m := Produced(ls);
    if l.PPut? || l.POver? || l.PFail? {
      FillKeeps(s, l, m, Produced(ls + [l]));
    } else if l.PEnter? {
      EnterKeeps(s, l, m);
    } else if l.PWait? || l.PWake? || l.PLeave? || l.PReset? {
      ToggleKeeps(s, l, m);
    } else {
      WriterKeeps(s, l, m);
    }
  }

  lemma {:induction false} RunKeeps(ss: seq<State>, ls: seq<Label>, k: nat)
    requires IsRun(ss, ls) && k <= |ls|
    ensures Inv(ss[k]) && Keeps(ss[k], Produced(ls[..k]))
  {
    hide Inv, Enabled, Next, Produced, Keeps;
    RunInv(ss, ls, k);
    if k == 0 {
      assert Keeps(START, Produced([])) by { NothingProduced(); }
      assert ls[..0] == [];
    } else {
      RunKeeps(ss, ls, k - 1);
      assert Takes(ss[k - 1], ls[k - 1], ss[k - 1 + 1]);
      InvShape(ss[k]);
      KeepsNext(ss[k - 1], ls[k - 1], ls[..k - 1]);
      assert ls[..k] == ls[..k - 1] + [ls[k - 1]];
    }
  }

  lemma NothingProduced()
    ensures Shape(START) && Keeps(START, Produced([]))
  {
  }

  lemma InvShape(s: State)
    requires Inv(s)
    ensures Shape(s)
  {
  }

  /** In every interleaving the file is a beginning of what the provider put, in order; when both
      threads are done without an error it is all of that, pages and tails. */
  lemma FileIsStream(ss: seq<State>, ls: seq<Label>, k: nat)
    requires IsRun(ss, ls) && k <= |ls|
    ensures ss[k].out <= Produced(ls[..k]).done
    ensures ss[k].p.Ended? && ss[k].w.Exit? && !ss[k].error ==>
              var m := Produced(ls[..k]); ss[k].out == m.done && m.page == [] && m.tail == []
  {
    RunKeeps(ss, ls, k);
    HandOff(ss, ls, k);
    if ss[k].w.Exit? { WriterStops(ss, ls, k, k); }
    hide Produced, Flat;
  }

  /** Steps that bring the copy no further: filling on, failing, waking up to no purpose. */
  predicate Idle(s: State, l: Label) {
    || l.PPut? || l.POver? || l.PFail? || l.WFail?
    || (l.PWake? && s.pending >= 2) || (l.WEnter? && s.pending == 0 && !s.eof)
  }

  /** No deadlock: until both threads are done, one of them can take a step of use. */
  lemma SomeoneMoves(ss: seq<State>, ls: seq<Label>, k: nat)
    requires IsRun(ss, ls) && k <= |ls| && !(ss[k].p.Ended? && ss[k].w.Exit?)
    ensures exists l :: Enabled(ss[k], l) && !Idle(ss[k], l)
  {
    RunInv(ss, ls, k);
    var s := ss[k];
    var l := if s.p.Leaving? then PReset
      else if s.p.Inside? then (if s.pending >= 2 then PWait else PLeave)
      else if Writing(s.w) then (if Left(s) == [] || s.error then WDone else WWrite(1))
      else if s.w.Look? then (if s.pending > 0 then WTake else if s.eof then WExit else WWait)
      else if s.p.Fill? then PEnter(true)
      else if s.p.Asleep? && s.pending < 2 then PWake
      else WEnter;
    assert Enabled(s, l) && !Idle(s, l);
  }
}
