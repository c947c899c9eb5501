/** The pass manager: a stack of states that can be rolled back. */
module Passes {
  import opened Wrappers
  import opened Nominals

  datatype State<D> = State(
    currNom: Option<nat>,
    oldOps: Ops,
    stack: seq<nat>,
    nom2visit: map<nat, nat>,
    data: D,
    old2new: map<Def, Def>,
    analyzed: set<Def>)

  type States<D> = seq<State<D>>

  /** What a state looks like that has just been pushed on top of states. */
  function NextState<D>(states: States<D>, heap: Heap): State<D>
    requires states != [] && Top(states).stack != [] && Last(Top(states).stack) < |heap|
  {
    var n := Last(Top(states).stack);
    State(Some(n), heap[n], Top(states).stack, Top(states).nom2visit, Top(states).data, map[], {})
  }

  function Last<T>(s: seq<T>): (x: T)
    requires s != []
    ensures x in s
  {
    s[|s| - 1]
  }

  function Pop<T>(s: seq<T>): seq<T>
    requires s != []
  {
    s[..|s| - 1]
  }

  function Top<D>(states: States<D>): State<D>
    requires states != []
  {
    states[|states| - 1]
  }

  function SetTop<D>(states: States<D>, top: State<D>): States<D>
    requires states != []
  {
    states[..|states| - 1] + [top]
  }

  /** What has been analyzed in any state. */
  function AllAnalyzed<D>(states: States<D>): set<Def> {
    if states == [] then {} else AllAnalyzed(states[..|states| - 1]) + Top(states).analyzed
  }

  /** The replacement of d in the newest state that has one. */
  function Replacement<D>(states: States<D>, d: Def): Option<Def> {
    if states == [] then None
    else if d in Top(states).old2new then Some(Top(states).old2new[d])
    else Replacement(states[..|states| - 1], d)
  }

  /** Some state works or worked on n. */
  ghost predicate IsVisited<D>(states: States<D>, n: nat) {
    exists k :: 1 <= k < |states| && states[k].currNom == Some(n)
  }

  /** n was seen for the first time in state u. */
  ghost predicate FirstSeen<D>(states: States<D>, n: nat, u: nat) {
    && 1 <= u < |states| && n !in states[u - 1].nom2visit
    && forall j | u <= j < |states| :: n in states[j].nom2visit && states[j].nom2visit[n] == u
  }

  predicate Covered(all: set<Def>, d: Def) {
    DepNone(d) || d in all
  }

  /** Structural definitions are analyzed together with their operands. */
  ghost predicate Closed(all: set<Def>, open: set<Def>) {
    forall d {:trigger OpsCovered(all, d)} | d in all && d !in open :: OpsCovered(all, d)
  }

  ghost predicate OpsCovered(all: set<Def>, d: Def) {
    d.Node? ==> forall o | o in d.ops :: Covered(all, o)
  }

  lemma ClosedMore(all: set<Def>, open: set<Def>, d: Def)
    requires Closed(all, open)
    ensures Closed(all + {d}, open + {d}) && (!d.Node? ==> Closed(all + {d}, open))
  {
    forall e {:trigger OpsCovered(all + {d}, e)} | e in all && e !in open
      ensures OpsCovered(all + {d}, e)
    {
      assert OpsCovered(all, e);
    }
  }

  /** The visit stack holds exactly the nominals found but not yet visited, each once. */
  ghost predicate StackOk<D>(states: States<D>, gid: nat)
    requires states != []
  {
    && NoDup(Top(states).stack)
    && (forall n | n in Top(states).stack :: n < gid && NomRef(n) in AllAnalyzed(states) && !IsVisited(states, n))
    && (forall n: nat | IsVisited(states, n) :: NomRef(n) in AllAnalyzed(states))
    && (forall n: nat {:trigger NomRef(n)} | NomRef(n) in AllAnalyzed(states) ::
          n in Top(states).stack || IsVisited(states, n))
  }

  ghost predicate VisitsOk<D>(states: States<D>)
    requires states != []
  {
    && (forall n {:trigger FirstSeen(states, n, Top(states).nom2visit[n])} | n in Top(states).nom2visit ::
          FirstSeen(states, n, Top(states).nom2visit[n]))
    && (|states| > 1 ==> states[|states| - 2].nom2visit.Keys <= Top(states).nom2visit.Keys)
  }

  /** The top state was pushed when the operands were those of before; since then only those of its nominal changed. */
  ghost predicate Pushed<D>(states: States<D>, before: Heap, heap: Heap)
    requires |states| > 1
  {
    && states[|states| - 2].stack != []
    && var n := Last(states[|states| - 2].stack);
       n < |before| && Top(states).currNom == Some(n) && Top(states).oldOps == before[n]
       && WfHeap(before) && OnlyChanges(before, heap, n)
  }

  /** The top state is done: whatever its nominal refers to has been found. */
  ghost predicate Settled<D>(states: States<D>, heap: Heap)
    requires states != []
  {
    && Closed(AllAnalyzed(states), {})
    && (|states| > 1 ==>
          Top(states).currNom.Some? && Top(states).currNom.value < |heap|
          && AllFound(states, heap[Top(states).currNom.value]))
  }

  ghost predicate AllFound<D>(states: States<D>, ops: Ops) {
    IsSet(ops) ==> forall o | o in ops && o.Some? :: Covered(AllAnalyzed(states), o.value)
  }

  /** The states and operands at the time a state was pushed. */
  datatype Snap<D> = Snap(states: States<D>, heap: Heap)

  /** Every state stands on the states and the operands it was pushed on. */
  ghost predicate Hist<D>(states: States<D>, snaps: seq<Snap<D>>, heap: Heap)
    decreases |states|
  {
    && |states| == |snaps| > 0
    && StackOk(states, |heap|) && VisitsOk(states)
    && (|states| == 1 ==> states[0].currNom == None)
    && (|states| > 1 ==>
          var k := |states| - 1;
          && snaps[k].states == states[..k]
          && Hist(states[..k], snaps[..k], snaps[k].heap)
          && Settled(states[..k], snaps[k].heap)
          && Pushed(states, snaps[k].heap, heap))
  }

  /** Nominals may be created, and overwritten operands come back: the history does not mind. */
  lemma HistExtends<D>(states: States<D>, snaps: seq<Snap<D>>, heap: Heap, heap': Heap)
    requires Hist(states, snaps, heap) && Extends(heap, heap')
    ensures Hist(states, snaps, heap')
    ensures Settled(states, heap) ==> Settled(states, heap')
  {
  }

  /** The top state's nominal may change. */
  lemma HistWrites<D>(states: States<D>, snaps: seq<Snap<D>>, heap: Heap, heap': Heap)
    requires Hist(states, snaps, heap) && |states| > 1 && OnlyChanges(heap, heap', Top(states).currNom.value)
    ensures Hist(states, snaps, heap')
  {
  }

  /** Undoing the top state leads back to where it was pushed. */
  lemma HistPops<D>(states: States<D>, snaps: seq<Snap<D>>, heap: Heap)
    requires Hist(states, snaps, heap) && |states| > 1
    ensures var k := |states| - 1; var n := Top(states).currNom.value;
            && n < |heap| && |Top(states).oldOps| == |heap[n]|
            && Extends(snaps[k].heap, heap[n := Top(states).oldOps])
            && Hist(states[..k], snaps[..k], heap[n := Top(states).oldOps])
            && Settled(states[..k], heap[n := Top(states).oldOps])
            && snaps[k].states == states[..k]
  {
    var k := |states| - 1;
    HistExtends(states[..k], snaps[..k], snaps[k].heap, heap[Top(states).currNom.value := Top(states).oldOps]);
  }

  /** Pushing a state and taking the next nominal off its stack. */
  lemma HistPushes<D>(states: States<D>, snaps: seq<Snap<D>>, heap: Heap, next: State<D>)
    requires Hist(states, snaps, heap) && Settled(states, heap) && WfHeap(heap) && Top(states).stack != []
    requires Last(Top(states).stack) < |heap|
    requires next == NextState(states, heap).(stack := Pop(Top(states).stack))
    ensures Hist(states + [next], snaps + [Snap(states, heap)], heap)
    ensures Closed(AllAnalyzed(states + [next]), {})
  {
    var states', n := states + [next], Last(Top(states).stack);
    assert states'[..|states|] == states && (snaps + [Snap(states, heap)])[..|states|] == snaps;
    assert AllAnalyzed(states') == AllAnalyzed(states);
    VisitedMore(states, next);
    forall m | m in next.nom2visit
      ensures FirstSeen(states', m, next.nom2visit[m])
    {
      assert FirstSeen(states, m, Top(states).nom2visit[m]);
    }
  }

  lemma VisitedMore<D>(states: States<D>, next: State<D>)
    requires states != [] && next.currNom.Some?
    ensures forall n: nat :: IsVisited(states + [next], n) <==> IsVisited(states, n) || next.currNom == Some(n)
  {
    forall n: nat
      ensures IsVisited(states + [next], n) <==> IsVisited(states, n) || next.currNom == Some(n)
    {
      assert (states + [next])[|states|] == next;
      if IsVisited(states, n) {
        var k :| 1 <= k < |states| && states[k].currNom == Some(n);
        assert (states + [next])[k].currNom == Some(n);
      }
    }
  }

  /** The top state may learn about replacements. */
  lemma HistKeeps<D>(states: States<D>, snaps: seq<Snap<D>>, heap: Heap, top: State<D>)
    requires Hist(states, snaps, heap) && SameTop(Top(states), top) && VisitsOk(SetTop(states, top))
    ensures Hist(SetTop(states, top), snaps, heap)
    ensures AllAnalyzed(SetTop(states, top)) == AllAnalyzed(states)
  {
    var states' := SetTop(states, top);
    assert states'[..|states| - 1] == states[..|states| - 1];
    SameVisited(states, states');
  }

  /** Only data, replacements and visits may differ. */
  ghost predicate SameTop<D>(s: State<D>, t: State<D>) {
    t.currNom == s.currNom && t.oldOps == s.oldOps && t.stack == s.stack && t.analyzed == s.analyzed
  }

  lemma SameVisited<D>(states: States<D>, states': States<D>)
    requires |states| == |states'| && forall k | 0 <= k < |states| :: states'[k].currNom == states[k].currNom
    ensures forall n: nat :: IsVisited(states', n) <==> IsVisited(states, n)
  {
    forall n: nat
      ensures IsVisited(states', n) <==> IsVisited(states, n)
    {
      if IsVisited(states, n) {
        var k :| 1 <= k < |states| && states[k].currNom == Some(n);
        assert states'[k].currNom == Some(n);
      }
      if IsVisited(states', n) {
        var k :| 1 <= k < |states| && states'[k].currNom == Some(n);
        assert states[k].currNom == Some(n);
      }
    }
  }

  /** The state after n has been seen. */
  function SeeNom<D>(states: States<D>, n: nat): State<D>
    requires states != []
  {
    var top := Top(states);
    if n in top.nom2visit then top else top.(nom2visit := top.nom2visit[n := |states| - 1])
  }

  lemma VisitsSees<D>(states: States<D>, n: nat)
    requires |states| > 1 && VisitsOk(states)
    ensures VisitsOk(SetTop(states, SeeNom(states, n)))
  {
    var states' := SetTop(states, SeeNom(states, n));
    forall m | m in Top(states').nom2visit
      ensures FirstSeen(states', m, Top(states').nom2visit[m])
    {
      if m in Top(states).nom2visit {
        assert FirstSeen(states, m, Top(states).nom2visit[m]);
      }
    }
  }

  /** A definition other than a nominal is analyzed. */
  lemma FindDef<D>(states: States<D>, snaps: seq<Snap<D>>, heap: Heap, d: Def)
    requires Hist(states, snaps, heap) && !d.NomRef?
    ensures var states' := SetTop(states, Top(states).(analyzed := Top(states).analyzed + {d}));
            Hist(states', snaps, heap) && AllAnalyzed(states') == AllAnalyzed(states) + {d}
  {
    var states' := SetTop(states, Top(states).(analyzed := Top(states).analyzed + {d}));
    assert states'[..|states| - 1] == states[..|states| - 1];
    SameVisited(states, states');
    SameVisits(states, states');
  }

  /** A nominal is found: it is to be visited. */
  lemma FindNom<D>(states: States<D>, snaps: seq<Snap<D>>, heap: Heap, n: nat)
    requires Hist(states, snaps, heap) && NomRef(n) !in AllAnalyzed(states) && n < |heap|
    ensures var states' := SetTop(states,
            Top(states).(analyzed := Top(states).analyzed + {NomRef(n)}, stack := Top(states).stack + [n]));
            Hist(states', snaps, heap) && AllAnalyzed(states') == AllAnalyzed(states) + {NomRef(n)}
  {
    var states' := SetTop(states,
        Top(states).(analyzed := Top(states).analyzed + {NomRef(n)}, stack := Top(states).stack + [n]));
    assert states'[..|states| - 1] == states[..|states| - 1];
    SameVisited(states, states');
    SameVisits(states, states');
    assert AllAnalyzed(states') == AllAnalyzed(states) + {NomRef(n)};
    StackGrows(states, states', |heap|, n);
  }

  /** A nominal that was not found before goes on the stack. */
  lemma StackGrows<D>(states: States<D>, states': States<D>, gid: nat, n: nat)
    requires states != [] && states' != [] && StackOk(states, gid) && NomRef(n) !in AllAnalyzed(states) && n < gid
    requires AllAnalyzed(states') == AllAnalyzed(states) + {NomRef(n)} && Top(states').stack == Top(states).stack + [n]
    requires forall m: nat :: IsVisited(states', m) <==> IsVisited(states, m)
    ensures StackOk(states', gid)
  {
  }

  /** The top state after d has been found. */
  function FindTop<D>(states: States<D>, d: Def): State<D>
    requires states != []
  {
    var top := Top(states).(analyzed := Top(states).analyzed + {d});
    if d.NomRef? then top.(stack := top.stack + [d.nom]) else top
  }

  lemma FindStep<D>(states: States<D>, snaps: seq<Snap<D>>, heap: Heap, d: Def, open: set<Def>)
    requires Hist(states, snaps, heap) && d !in AllAnalyzed(states) && Wf(d, |heap|)
             && Closed(AllAnalyzed(states), open)
    ensures var states' := SetTop(states, FindTop(states, d));
            && Hist(states', snaps, heap) && Found(states, states') && d in AllAnalyzed(states')
            && Closed(AllAnalyzed(states'), open + {d})
            && (!d.Node? ==> Closed(AllAnalyzed(states'), open))
  {
    if d.NomRef? { FindNom(states, snaps, heap, d.nom); } else { FindDef(states, snaps, heap, d); }
    ClosedMore(AllAnalyzed(states), open, d);
    assert SetTop(states, FindTop(states, d))[..|states| - 1] == states[..|states| - 1];
  }

  lemma SetTwice<D>(states: States<D>, states': States<D>, top: State<D>)
    requires states != [] && |states'| == |states| && states' == SetTop(states, Top(states'))
    ensures SetTop(states', top) == SetTop(states, top)
  {
  }

  lemma FindAdds<D>(states: States<D>, d: Def)
    requires states != []
    ensures AllAnalyzed(SetTop(states, FindTop(states, d))) == AllAnalyzed(states) + {d}
  {
    assert SetTop(states, FindTop(states, d))[..|states| - 1] == states[..|states| - 1];
  }

  lemma SameVisits<D>(states: States<D>, states': States<D>)
    requires |states| == |states'| > 0 && VisitsOk(states) && states'[..|states| - 1] == states[..|states| - 1]
    requires Top(states').nom2visit == Top(states).nom2visit
    ensures VisitsOk(states')
  {
    forall m | m in Top(states').nom2visit
      ensures FirstSeen(states', m, Top(states').nom2visit[m])
    {
      assert FirstSeen(states, m, Top(states).nom2visit[m]);
      assert forall j | 0 <= j < |states| - 1 :: states'[j] == states'[..|states| - 1][j] == states[j];
    }
  }

  datatype Undo = NoUndo | To(state: nat)

  function Min(a: Undo, b: Undo): Undo {
    if a.NoUndo? then b else if b.NoUndo? || a.state <= b.state then a else b
  }

  /** u is not after v. */
  predicate NotAfter(u: Undo, v: Undo) {
    v.NoUndo? || (u.To? && u.state <= v.state)
  }

  /** What passes were asked about, and where they wanted to go back to. */
  datatype Heard = Heard(def: Def, points: seq<Undo>)

  /** u is the earliest of all these points. */
  ghost predicate Earliest(u: Undo, log: seq<Heard>) {
    && (forall k, p {:trigger p in log[k].points} | 0 <= k < |log| && p in log[k].points :: NotAfter(u, p))
    && (u.To? ==> exists k :: 0 <= k < |log| && u in log[k].points)
  }

  ghost predicate AskedAbout(log: seq<Heard>, d: Def) {
    exists k :: 0 <= k < |log| && log[k].def == d
  }

  /** What was found since log was log0 was asked about, and u is the earliest point that anyone wanted. */
  ghost predicate AllHeard(u: Undo, log0: seq<Heard>, log: seq<Heard>, all0: set<Def>, all: set<Def>) {
    && log0 <= log && Earliest(u, log[|log0|..])
    && forall d {:trigger AskedAbout(log[|log0|..], d)} | d in all && d !in all0 && !d.NomRef? ::
         AskedAbout(log[|log0|..], d)
  }

  lemma HeardMore(u: Undo, v: Undo, log0: seq<Heard>, log1: seq<Heard>, log2: seq<Heard>, all0: set<Def>,
                  all1: set<Def>, all2: set<Def>)
    requires AllHeard(u, log0, log1, all0, all1) && AllHeard(v, log1, log2, all1, all2)
    ensures AllHeard(Min(u, v), log0, log2, all0, all2)
  {
    var a, b := log1[|log0|..], log2[|log1|..];
    assert log2[|log0|..] == a + b;
    EarliestOfBoth(u, v, a, b);
    forall d {:trigger AskedAbout(a + b, d)} | d in all2 && d !in all0 && !d.NomRef?
      ensures AskedAbout(a + b, d)
    {
      assert if d in all1 then AskedAbout(a, d) else AskedAbout(b, d);
      AskedAboutBoth(a, b, d);
    }
  }

  lemma EarliestOfBoth(u: Undo, v: Undo, a: seq<Heard>, b: seq<Heard>)
    requires Earliest(u, a) && Earliest(v, b)
    ensures Earliest(Min(u, v), a + b)
  {
    var c := a + b;
    forall k, p {:trigger p in c[k].points} | 0 <= k < |c| && p in c[k].points
      ensures NotAfter(Min(u, v), p)
    {
      if k < |a| { assert p in a[k].points; } else { assert p in b[k - |a|].points; }
    }
    PointKept(u, a, c, 0);
    PointKept(v, b, c, |a|);
  }

  lemma AskedAboutBoth(a: seq<Heard>, b: seq<Heard>, d: Def)
    requires AskedAbout(a, d) || AskedAbout(b, d)
    ensures AskedAbout(a + b, d)
  {
    if AskedAbout(a, d) {
      var k :| 0 <= k < |a| && a[k].def == d;
      assert (a + b)[k].def == d;
    } else {
      var k :| 0 <= k < |b| && b[k].def == d;
      assert (a + b)[|a| + k].def == d;
    }
  }

  lemma HeardNothing(log: seq<Heard>, all0: set<Def>, all: set<Def>)
    requires forall d | d in all && d !in all0 :: d.NomRef?
    ensures AllHeard(NoUndo, log, log, all0, all)
  {
    assert log[|log|..] == [];
  }

  /** Once its operands have been analyzed, so has d. */
  lemma CloseOne(all: set<Def>, open: set<Def>, d: Def)
    requires Closed(all, open + {d}) && OpsCovered(all, d)
    ensures Closed(all, open)
  {
    forall e {:trigger OpsCovered(all, e)} | e in all && e !in open
      ensures OpsCovered(all, e)
    {
      assert e == d || OpsCovered(all, e);
    }
  }

  lemma PointKept(u: Undo, a: seq<Heard>, c: seq<Heard>, from: nat)
    requires Earliest(u, a) && from + |a| <= |c| && c[from..from + |a|] == a
    ensures u.To? ==> exists k :: 0 <= k < |c| && u in c[k].points
  {
    if u.To? {
      var k :| 0 <= k < |a| && u in a[k].points;
      assert c[from..from + |a|][k] == c[from + k];
    }
  }

  /** One more definition has been found and asked about. */
  lemma HeardOne(u: Undo, v: Undo, log0: seq<Heard>, log1: seq<Heard>, log2: seq<Heard>, all0: set<Def>, all: set<Def>,
                 d: Def)
    requires AllHeard(u, log0, log1, all0 + {d}, all) && log1 < log2 && log2[|log1|].def == d
    requires Earliest(v, log2[|log1|..])
    ensures AllHeard(Min(u, v), log0, log2, all0, all)
  {
    assert AllHeard(v, log1, log2, all, all);
    HeardMore(u, v, log0, log1, log2, all0 + {d}, all, all);
    assert log2[|log0|..][|log1| - |log0|].def == d;
    assert AskedAbout(log2[|log0|..], d);
  }

  /** What passes do while they rewrite: they make nominals and write operands of the current one. */
  datatype Act = NewNom(ops: Ops) | WriteOp(index: nat, def: Def)

  datatype Rewriting<P, D> = Rewriting(passes: P, data: D, acts: seq<Act>, result: Def)

  /** How passes ask for a roll back. */
  datatype Request = UndoVisit(nom: nat) | UndoEnter(nom: nat)

  /** u is where this request leads. */
  ghost predicate LeadsBack<D>(states: States<D>, r: Request, u: Undo)
    requires states != []
  {
    match r
    case UndoVisit(n) => (u.NoUndo? <==> n !in Top(states).nom2visit) && (u.To? ==> FirstSeen(states, n, u.state))
    case UndoEnter(n) =>
      && (u.NoUndo? <==> !IsVisited(states, n))
      && (u.To? ==> 1 <= u.state < |states| && states[u.state].currNom == Some(n))
  }

  datatype Analysis<P, D> = Analysis(passes: P, data: D, requests: seq<Request>)

  ghost predicate ActsWf(acts: seq<Act>, gid: nat) {
    acts != [] ==>
      && (if acts[0].NewNom? then WfOps(acts[0].ops, gid + 1) else Wf(acts[0].def, gid))
      && ActsWf(acts[1..], if acts[0].NewNom? then gid + 1 else gid)
  }

  function GidAfter(acts: seq<Act>, gid: nat): nat {
    if acts == [] then gid else GidAfter(acts[1..], if acts[0].NewNom? then gid + 1 else gid)
  }

  predicate NoWrites(acts: seq<Act>) {
    forall a | a in acts :: a.NewNom?
  }

  /** What acts make of the operands; a nominal has no more operands than it was made with. */
  function AfterActs(heap: Heap, n: nat, acts: seq<Act>): Heap
    decreases |acts|
  {
    if acts == [] then heap else AfterActs(AfterAct(heap, n, acts[0]), n, acts[1..])
  }

  function AfterAct(heap: Heap, n: nat, act: Act): Heap {
    match act
    case NewNom(ops) => heap + [ops]
    case WriteOp(i, d) => if n < |heap| && i < |heap[n]| then heap[n := heap[n][i := Some(d)]] else heap
  }

  lemma {:induction false} QuietActs(heap: Heap, n: nat, acts: seq<Act>)
    requires NoWrites(acts)
    ensures Extends(heap, AfterActs(heap, n, acts))
    decreases |acts|
  {
    if acts != [] {
      assert acts[0] in acts;
      QuietActs(heap + [acts[0].ops], n, acts[1..]);
    }
  }

  ghost predicate RewritingWf<P, D>(r: Rewriting<P, D>, gid: nat) {
    ActsWf(r.acts, gid) && Wf(r.result, GidAfter(r.acts, gid))
  }

  /** Replacements only refer to nominals that exist. */
  ghost predicate MapsOk<D>(states: States<D>, gid: nat) {
    forall k, d {:trigger states[k].old2new[d]} | 0 <= k < |states| && d in states[k].old2new ::
        Wf(states[k].old2new[d], gid)
  }

  lemma {:induction false} ReplacementWf<D>(states: States<D>, gid: nat, d: Def)
    requires MapsOk(states, gid)
    ensures Replacement(states, d).Some? ==> Wf(Replacement(states, d).value, gid)
  {
    if states != [] && d !in Top(states).old2new { ReplacementWf(states[..|states| - 1], gid, d); }
  }

  /** The same replacements in the top state, and more nominals. */
  lemma MapsStay<D>(states: States<D>, states': States<D>, gid: nat, gid': nat)
    requires MapsOk(states, gid) && gid <= gid' && |states'| == |states| > 0
    requires states'[..|states| - 1] == states[..|states| - 1] && Top(states').old2new == Top(states).old2new
    ensures MapsOk(states', gid')
  {
    forall k, d {:trigger states'[k].old2new[d]} | 0 <= k < |states'| && d in states'[k].old2new
      ensures Wf(states'[k].old2new[d], gid')
    {
      assert k < |states| - 1 ==> states'[..|states| - 1][k] == states[..|states| - 1][k];
      WfMore(states[k].old2new[d], gid, gid');
    }
  }

  lemma MapsPush<D>(states: States<D>, states': States<D>, gid: nat)
    requires MapsOk(states, gid) && |states'| == |states| + 1 && states'[..|states|] == states
             && Top(states').old2new == map[]
    ensures MapsOk(states', gid)
  {
    forall k, d {:trigger states'[k].old2new[d]} | 0 <= k < |states'| && d in states'[k].old2new
      ensures Wf(states'[k].old2new[d], gid)
    {
      assert states'[k] == states[k];
    }
  }

  lemma MapsPop<D>(states: States<D>, states': States<D>, gid: nat)
    requires MapsOk(states, gid) && states' <= states
    ensures MapsOk(states', gid)
  {
    forall k, d {:trigger states'[k].old2new[d]} | 0 <= k < |states'| && d in states'[k].old2new
      ensures Wf(states'[k].old2new[d], gid)
    {
      assert states'[k] == states[k];
    }
  }

  lemma MapsMore<D>(states: States<D>, gid: nat, from: Def, to: Def)
    requires MapsOk(states, gid) && states != [] && Wf(to, gid)
    ensures MapsOk(SetTop(states, Mapped(states, from, to)), gid)
  {
    var states' := SetTop(states, Mapped(states, from, to));
    forall k, d {:trigger states'[k].old2new[d]} | 0 <= k < |states'| && d in states'[k].old2new
      ensures Wf(states'[k].old2new[d], gid)
    {
      assert k == |states| - 1 || states'[k] == states[k];
      assert d == from || d == to || states'[k].old2new[d] == states[k].old2new[d];
    }
  }

  /** Whatever has a replacement is the same as that. */
  ghost predicate MapsKeep<D>(states: States<D>, same: (Def, Def) -> bool) {
    forall k, d {:trigger states[k].old2new[d]} | 0 <= k < |states| && d in states[k].old2new ::
        same(d, states[k].old2new[d])
  }

  lemma {:induction false} ReplacementSame<D>(states: States<D>, same: (Def, Def) -> bool, d: Def)
    requires MapsKeep(states, same)
    ensures Replacement(states, d).Some? ==> same(d, Replacement(states, d).value)
  {
    if states != [] && d !in Top(states).old2new { ReplacementSame(states[..|states| - 1], same, d); }
  }

  lemma KeepStays<D>(states: States<D>, states': States<D>, same: (Def, Def) -> bool)
    requires MapsKeep(states, same) && |states'| == |states| > 0
    requires states'[..|states| - 1] == states[..|states| - 1] && Top(states').old2new == Top(states).old2new
    ensures MapsKeep(states', same)
  {
    forall k, d {:trigger states'[k].old2new[d]} | 0 <= k < |states'| && d in states'[k].old2new
      ensures same(d, states'[k].old2new[d])
    {
      assert k < |states| - 1 ==> states'[..|states| - 1][k] == states[..|states| - 1][k];
      assert d in states[k].old2new && states'[k].old2new[d] == states[k].old2new[d];
    }
  }

  lemma KeepMore<D>(states: States<D>, same: (Def, Def) -> bool, from: Def, to: Def)
    requires MapsKeep(states, same) && states != [] && same(from, to) && same(to, to)
    ensures MapsKeep(SetTop(states, Mapped(states, from, to)), same)
  {
    var states' := SetTop(states, Mapped(states, from, to));
    forall k, d {:trigger states'[k].old2new[d]} | 0 <= k < |states'| && d in states'[k].old2new
      ensures same(d, states'[k].old2new[d])
    {
      assert k == |states| - 1 || states'[k] == states[k];
      assert d == from || d == to || states'[k].old2new[d] == states[k].old2new[d];
      if states'[k] != states[k] && d == to && d != from && to in states[k].old2new {
        assert states'[k].old2new[d] == states[k].old2new[d];
      }
    }
  }

  datatype Result = Result(from: Def, to: Def)

  /** The first operands have been rewritten, and the others are as they were. */
  ghost predicate RewrittenUpTo(before: Ops, after: Ops, k: nat, results: seq<Result>) {
    && |before| == |after| && k <= |after|
    && forall i {:trigger after[i]} | 0 <= i < |after| ::
         if i < k then OpRewritten(before[i], after[i], results) else after[i] == before[i]
  }

  ghost predicate OpRewritten(before: Option<Def>, after: Option<Def>, results: seq<Result>) {
    if before.None? then after.None? else after.Some? && Result(before.value, after.value) in results
  }

  lemma RewrittenNext(before: Ops, ops: Ops, after: Ops, k: nat, results: seq<Result>, results': seq<Result>)
    requires RewrittenUpTo(before, ops, k, results) && k < |ops| == |after| && results <= results'
    requires forall i | 0 <= i < |after| && i != k :: after[i] == ops[i]
    requires OpRewritten(before[k], after[k], results')
    ensures RewrittenUpTo(before, after, k + 1, results')
  {
    forall i {:trigger after[i]} | 0 <= i < |after|
      ensures if i < k + 1 then OpRewritten(before[i], after[i], results') else after[i] == before[i]
    {
      assert i < k ==> OpRewritten(before[i], ops[i], results);
    }
  }

  predicate Always(a: Def, b: Def) {
    true
  }

  predicate Equal(a: Def, b: Def) {
    a == b
  }

  function Operands(d: Def): seq<Def> {
    if d.Proxy? || d.Node? then d.ops else []
  }

  /** What d is looked up as; constants stand for themselves. */
  ghost predicate LookedUp<D>(states: States<D>, d: Def, r: Def) {
    if DepNone(d) then r == d else Replacement(states, d) == Some(r)
  }

  ghost predicate OpDone<D>(seen: States<D>, d: Def, r: Def, same: (Def, Def) -> bool, gid: nat) {
    LookedUp(seen, d, r) && same(d, r) && Wf(r, gid)
  }

  /** The first operands have been rewritten. */
  ghost predicate OpsDone<D>(d: Def, ops: seq<Def>, seen: seq<States<D>>, same: (Def, Def) -> bool, gid: nat) {
    && |ops| == |seen| <= |Operands(d)|
    && forall i {:trigger ops[i]} | 0 <= i < |ops| :: OpDone(seen[i], Operands(d)[i], ops[i], same, gid)
  }

  lemma NextOp<D>(d: Def, ops: seq<Def>, seen: seq<States<D>>, same: (Def, Def) -> bool, gid: nat, gid': nat, r: Def,
                  states: States<D>)
    requires OpsDone(d, ops, seen, same, gid) && |ops| < |Operands(d)| && gid <= gid'
    requires OpDone(states, Operands(d)[|ops|], r, same, gid')
    ensures OpsDone(d, ops + [r], seen + [states], same, gid')
  {
    forall i {:trigger (ops + [r])[i]} | 0 <= i < |ops + [r]|
      ensures OpDone((seen + [states])[i], Operands(d)[i], (ops + [r])[i], same, gid')
    {
      if i < |ops| {
        assert OpDone(seen[i], Operands(d)[i], ops[i], same, gid);
        WfMore(ops[i], gid, gid');
      }
    }
  }

  /** How a definition is rewritten: it has been before, or the passes are offered what it is with these operands,
      each looked up once it was rewritten. */
  datatype Step<P, D> =
    | Known(states: States<D>)
    | Offered(ops: seq<Def>, seen: seq<States<D>>, passes: P, states: States<D>, heap: Heap)

  /** The same states, but for the top's data, replacements and visits. */
  ghost predicate SameBelow<D>(states: States<D>, states': States<D>) {
    && |states'| == |states| > 0 && states'[..|states| - 1] == states[..|states| - 1]
    && SameTop(Top(states), Top(states'))
  }

  /** The nominals a definition refers to, not through variables or proxies. */
  function NomsOf(d: Def): set<nat> {
    match d
    case NomRef(n) => {n}
    case Node(_, ops) => set o, n | o in ops && n in NomsOf(o) :: n
    case _ => {}
  }

  ghost predicate RefersTo(heap: Heap, n: nat, m: nat) {
    n < |heap| && IsSet(heap[n]) && exists o :: o in heap[n] && o.Some? && m in NomsOf(o.value)
  }

  /** Manages passes whose own fields are P and whose data in a state is D. What passes do when they enter a nominal,
      rewrite or analyze a definition is up to them, as long as they only write the current nominal and new ones. */
  class PassMan<P(!new), D(!new)> {
    const world: World
    const enter: (P, States<D>, Heap) -> Rewriting<P, D>
    const rewrite: (P, States<D>, Heap, Def) -> Rewriting<P, D>
    const rebuild: (nat, seq<Def>) -> Def
    const analyze: (P, States<D>, Heap, Def) -> Analysis<P, D>
    var passes: P
    var states: States<D>
    /** What was there when each state was pushed. */
    ghost var snaps: seq<Snap<D>>
    /** What the passes said when they were asked to analyze. */
    ghost var heard: seq<Heard>
    /** What definitions were rewritten to, in order. */
    ghost var results: seq<Result>

    /** Passes only build on nominals that exist. */
    ghost predicate PassesOk()
    {
      && (forall p, ss, h | WfHeap(h) :: RewritingWf(enter(p, ss, h), |h|))
      && (forall p, ss, h, d | WfHeap(h) && Wf(d, |h|) :: RewritingWf(rewrite(p, ss, h, d), |h|))
      && (forall tag, ops, gid: nat {:trigger Wf(rebuild(tag, ops), gid)} | forall o | o in ops :: Wf(o, gid) ::
          Wf(rebuild(tag, ops), gid))
    }

    ghost predicate Valid()
      reads this, world
    {
      world.Valid() && InStep()
    }

    /** d with other operands. */
    function Rebuilt(d: Def, ops: seq<Def>): Def {
      match d
      case Proxy(pass, _) => Proxy(pass, ops)
      case Node(tag, _) => rebuild(tag, ops)
      case _ => d
    }

    /** ops are the operands of d as they were looked up, in order. */
    ghost predicate OpsLookedUp(d: Def, ops: seq<Def>, seen: seq<States<D>>) {
      && |ops| == |seen| == |Operands(d)|
      && forall i | 0 <= i < |ops| :: LookedUp(seen[i], Operands(d)[i], ops[i])
    }

    /** These steps lead from d to r: each goes on with what is known of a definition, or what the passes answer to the
        definition that is built anew, until there is nothing to rewrite or the passes leave it as it is. */
    ghost predicate LeadsTo(steps: seq<Step<P, D>>, d: Def, r: Def)
      decreases |steps|
    {
      if steps == [] then (DepNone(d) || d.NomRef?) && r == d
      else match steps[0]
        case Known(ss) =>
          && Replacement(ss, d).Some?
          && var next := Replacement(ss, d).value;
             if next == d then |steps| == 1 && r == d else LeadsTo(steps[1..], next, r)
        case Offered(ops, seen, p, ss, h) =>
          && OpsLookedUp(d, ops, seen)
          && var offered := Rebuilt(d, ops);
             var answer := rewrite(p, ss, h, offered).result;
             if answer == offered then |steps| == 1 && r == offered else LeadsTo(steps[1..], answer, r)
    }

    /** Building anew and the passes go from a definition to one that is the same. */
    ghost predicate Respect(same: (Def, Def) -> bool) {
      && (forall d {:trigger same(d, d)} :: same(d, d))
      && (forall a, b, c {:trigger Transitive(same, a, b, c)} :: Transitive(same, a, b, c))
      && (forall d, ops {:trigger RebuiltSame(same, d, ops)} :: RebuiltSame(same, d, ops))
      && (forall p, ss, h, d {:trigger rewrite(p, ss, h, d)} :: same(d, rewrite(p, ss, h, d).result))
    }

    static ghost predicate Transitive(same: (Def, Def) -> bool, a: Def, b: Def, c: Def) {
      same(a, b) && same(b, c) ==> same(a, c)
    }

    /** Building anew from the same operands. */
    ghost predicate RebuiltSame(same: (Def, Def) -> bool, d: Def, ops: seq<Def>) {
      |ops| == |Operands(d)| && (forall i | 0 <= i < |ops| :: same(Operands(d)[i], ops[i])) ==> same(d, Rebuilt(d, ops))
    }

    /** The states fit the operands. */
    ghost predicate InStep()
      reads this, world
    {
      Hist(states, snaps, world.heap)
    }

    constructor (world: World, passes: P, enter: (P, States<D>, Heap) -> Rewriting<P, D>,
                 rewrite: (P, States<D>, Heap, Def) -> Rewriting<P, D>, rebuild: (nat, seq<Def>) -> Def,
                 analyze: (P, States<D>, Heap, Def) -> Analysis<P, D>)
      ensures this.world == world && this.passes == passes && states == []
      ensures this.enter == enter && this.rewrite == rewrite && this.rebuild == rebuild && this.analyze == analyze
    {
      this.world := world;
      this.passes := passes;
      this.enter := enter;
      this.rewrite := rewrite;
      this.rebuild := rebuild;
      this.analyze := analyze;
      states := [];
      snaps := [];
      heard, results := [], [];
    }

    method PushState()
      requires Valid() && Top(states).stack != []
      modifies this`states, this`snaps
      ensures old(Last(Top(states).stack)) < |world.heap|
      ensures states == old(states) + [NextState(old(states), world.heap)]
      ensures snaps == old(snaps) + [Snap(old(states), world.heap)]
    {
      var prev := Top(states);
      var n := Last(prev.stack);
      snaps := snaps + [Snap(states, world.heap)];
      states := states + [State(None, [], [], map[], prev.data, map[], {})];
      states := SetTop(states, Top(states).(currNom := Some(n), oldOps := world.heap[n]));
      states := SetTop(states, Top(states).(stack := prev.stack, nom2visit := prev.nom2visit));
    }

    /** Restores the operands of the top state's nominal. */
    method Reset()
      requires Valid() && |states| > 1
      modifies world
      ensures world.Valid() && |world.heap| == |old(world.heap)|
      ensures Undone(states, snaps, world.heap)
    {
      var top := Top(states);
      HistPops(states, snaps, world.heap);
      OldOpsWf(states, snaps, world.heap);
      world.SetOps(top.currNom.value, top.oldOps);
    }

    /** Takes states away until only undo many are left; unless everything is over, restores what they overwrote. */
    method PopStates(undo: nat)
      requires Valid() && undo < |states|
      modifies this`states, this`snaps, world
      ensures |states| == undo && world.Valid()
      ensures Popped(old(states), old(snaps), states, snaps, undo, world.heap)
      ensures undo == 0 ==> world.heap == old(world.heap)
      ensures |world.heap| == |old(world.heap)|
    {
      ghost var states0, snaps0 := states, snaps;
      PopStart(states, snaps, world.heap, undo);
      while |states| != undo
        invariant Popped(states0, snaps0, states, snaps, undo, world.heap) && world.Valid()
        invariant undo == 0 ==> world.heap == old(world.heap)
        invariant |world.heap| == |old(world.heap)|
      {
        if undo != 0 {
          Reset();
        }
        PopStep(states0, snaps0, states, snaps, undo, world.heap);
        states := Pop(states);
        snaps := Pop(snaps);
      }
    }

    /** The replacement of d in the newest state that knows one. */
    method Lookup(d: Def) returns (r: Option<Def>)
      ensures r == Replacement(states, d)
    {
      var k := |states|;
      assert states[..k] == states;
      while k > 0
        invariant 0 <= k <= |states| && Replacement(states, d) == Replacement(states[..k], d)
      {
        k := k - 1;
        assert states[..k + 1][..k] == states[..k];
        if d in states[k].old2new {
          return Some(states[k].old2new[d]);
        }
      }
      r := None;
    }

    method Map(from: Def, to: Def)
      requires InStep() && MapsOk(states, |world.heap|) && Wf(to, |world.heap|)
      modifies this`states
      ensures InStep() && SameBelow(old(states), states) && MapsOk(states, |world.heap|)
      ensures states == SetTop(old(states), Mapped(old(states), from, to))
      ensures Top(states).nom2visit == Top(old(states)).nom2visit
      ensures Replacement(states, from) == Some(to)
      ensures Replacement(states, to).Some?
      ensures forall d | d != from && d != to :: Replacement(states, d) == Replacement(old(states), d)
    {
      MapKeeps(states, snaps, world.heap, from, to);
      MapReplaces(states, from, to);
      MapsMore(states, |world.heap|, from, to);
      var m := Top(states).old2new[from := to];
      if to !in m {
        m := m[to := to];
      }
      states := SetTop(states, Top(states).(old2new := m));
    }

    /** A nominal is seen while rewriting. */
    method See(n: nat)
      requires InStep() && |states| > 1 && MapsOk(states, |world.heap|) && n < |world.heap|
      modifies this`states
      ensures InStep() && SameBelow(old(states), states) && MapsOk(states, |world.heap|)
      ensures n in Top(states).nom2visit && Replacement(states, NomRef(n)) == Some(NomRef(n))
      ensures forall same: (Def, Def) -> bool | same(NomRef(n), NomRef(n)) && MapsKeep(old(states), same) ::
                MapsKeep(states, same)
    {
      VisitsSees(states, n);
      HistKeeps(states, snaps, world.heap, SeeNom(states, n));
      assert SetTop(states, SeeNom(states, n))[..|states| - 1] == states[..|states| - 1];
      MapsStay(states, SetTop(states, SeeNom(states, n)), |world.heap|, |world.heap|);
      states := SetTop(states, SeeNom(states, n));
      Map(NomRef(n), NomRef(n));
    }

    method SetData(data: D)
      requires InStep()
      modifies this`states
      ensures InStep() && SameBelow(old(states), states) && Top(states).old2new == Top(old(states)).old2new
      ensures Top(states).data == data
    {
      var top := Top(states).(data := data);
      HistKeepsVisits(states, snaps, world.heap, top);
      assert SetTop(states, top)[..|states| - 1] == states[..|states| - 1];
      states := SetTop(states, top);
    }

    /** The point to go back to so that n has not been seen yet. */
    method UndoVisitOf(n: nat) returns (u: Undo)
      requires InStep()
      ensures u.NoUndo? <==> n !in Top(states).nom2visit
      ensures u.To? ==> FirstSeen(states, n, u.state)
    {
      if n in Top(states).nom2visit {
        assert FirstSeen(states, n, Top(states).nom2visit[n]);
        return To(Top(states).nom2visit[n]);
      }
      return NoUndo;
    }

    /** The point to go back to so that n is the next nominal to be visited. */
    method UndoEnterOf(n: nat) returns (u: Undo)
      requires InStep()
      ensures u.NoUndo? <==> !IsVisited(states, n)
      ensures u.To? ==> 1 <= u.state < |states| && states[u.state].currNom == Some(n)
    {
      var i := |states|;
      while i != 0
        invariant 0 <= i <= |states| && forall j | i <= j < |states| :: states[j].currNom != Some(n)
      {
        i := i - 1;
        if states[i].currNom == Some(n) {
          HistStart(states, snaps, world.heap);
          assert IsVisited(states, n);
          return To(i);
        }
      }
      return NoUndo;
    }

    /** Has d been analyzed? If not, it is now. */
    method Analyzed(d: Def) returns (was: bool)
      requires states != []
      modifies this`states
      ensures was == (d in AllAnalyzed(old(states)))
      ensures states == if was then old(states)
              else SetTop(old(states), Top(old(states)).(analyzed := Top(old(states)).analyzed + {d}))
    {
      var k := |states|;
      assert states[..k] == states;
      while k > 0
        invariant 0 <= k <= |states| && (d in AllAnalyzed(states) <==> d in AllAnalyzed(states[..k]))
      {
        k := k - 1;
        assert states[..k + 1][..k] == states[..k];
        if d in states[k].analyzed {
          return true;
        }
      }
      states := SetTop(states, Top(states).(analyzed := Top(states).analyzed + {d}));
      return false;
    }

    /** Does what passes asked for while rewriting. */
    method Perform(n: nat, acts: seq<Act>)
      requires Valid() && |states| > 1 && Top(states).currNom == Some(n) && n < |world.heap|
               && ActsWf(acts, |world.heap|)
      modifies world
      ensures Valid() && OnlyChanges(old(world.heap), world.heap, n)
      ensures |world.heap| == GidAfter(acts, |old(world.heap)|) && world.heap == AfterActs(old(world.heap), n, acts)
      decreases |acts|
    {
      if acts == [] { return; }
      ghost var was := world.heap;
      match acts[0] {
        case NewNom(ops) =>
          var _ := world.Stub(ops);
          HistExtends(states, snaps, was, world.heap);
        case WriteOp(i, d) =>
          if i < |world.heap[n]| {
            world.Set(n, i, Some(d));
            HistWrites(states, snaps, was, world.heap);
          }
      }
      Perform(n, acts[1..]);
    }

    /** Whatever the passes do with a rewriting of theirs. */
    method Follow(n: nat, r: Rewriting<P, D>)
      requires Valid() && MapsOk(states, |world.heap|) && |states| > 1 && Top(states).currNom == Some(n)
               && n < |world.heap|
      requires RewritingWf(r, |world.heap|)
      modifies this`states, this`passes, world
      ensures Valid() && MapsOk(states, |world.heap|) && SameBelow(old(states), states) && Wf(r.result, |world.heap|)
      ensures OnlyChanges(old(world.heap), world.heap, n) && Top(states).old2new == Top(old(states)).old2new
      ensures passes == r.passes && Top(states).data == r.data && world.heap == AfterActs(old(world.heap), n, r.acts)
    {
      ghost var was, gid := states, |world.heap|;
      passes := r.passes;
      SetData(r.data);
      Perform(n, r.acts);
      MapsStay(was, states, gid, |world.heap|);
    }

    /** The passes are at work on n; what has been replaced is the same as its replacement. */
    ghost predicate AtWork(n: nat, same: (Def, Def) -> bool)
      reads this, world
    {
      && Valid() && MapsOk(states, |world.heap|) && |states| > 1
      && Top(states).currNom == Some(n) && n < |world.heap| && MapsKeep(states, same)
    }

    /** The passes may make nominals, but do not write operands themselves. */
    ghost predicate Quiet() {
      && (forall p, ss, h {:trigger enter(p, ss, h)} :: NoWrites(enter(p, ss, h).acts))
      && (forall p, ss, h, d {:trigger rewrite(p, ss, h, d)} :: NoWrites(rewrite(p, ss, h, d).acts))
    }

    ghost predicate Changes(heap: Heap, heap': Heap, n: nat) {
      OnlyChanges(heap, heap', n) && (Quiet() ==> Extends(heap, heap'))
    }

    /** d keeps being rewritten for more than so many rounds, or one of its operands does. */
    ghost predicate Busy(fuel: nat, d: Def, same: (Def, Def) -> bool)
      decreases fuel, 1, d
    {
      || (exists next :: GoesOn(d, next, same) && BusyAfter(fuel, next, same))
      || ((d.Proxy? || d.Node?) && exists o :: o in d.ops && Busy(fuel, o, same))
    }

    ghost predicate BusyAfter(fuel: nat, next: Def, same: (Def, Def) -> bool)
      decreases fuel, 0
    {
      fuel == 0 || Busy(fuel - 1, next, same)
    }

    /** next may take the place of d: it is another definition, or the passes changed something. */
    ghost predicate GoesOn(d: Def, next: Def, same: (Def, Def) -> bool) {
      && same(d, next)
      && (next != d || exists p, ss, h, offered :: next == rewrite(p, ss, h, offered).result && next != offered)
    }

    /** Asks the passes to rewrite d. */
    method AskRewrite(d: Def, n: nat, ghost same: (Def, Def) -> bool) returns (r: Def)
      requires PassesOk() && AtWork(n, same) && Wf(d, |world.heap|)
      modifies this`states, this`passes, world
      ensures AtWork(n, same) && SameBelow(old(states), states) && Changes(old(world.heap), world.heap, n)
      ensures Wf(r, |world.heap|) && r == rewrite(old(passes), old(states), old(world.heap), d).result
    {
      ghost var before := states;
      var rw := rewrite(passes, states, world.heap, d);
      Follow(n, rw);
      if Quiet() { QuietActs(old(world.heap), n, rw.acts); }
      KeepStays(before, states, same);
      r := rw.result;
    }

    /** Rewrites d, bottom up and until no pass finds anything to rewrite; what has been rewritten is remembered. The
        passes may keep this going forever: after so many rounds there is no result. Whatever building anew and the
        passes respect is respected. */
    method Rewrite(d: Def, n: nat, fuel: nat, ghost same: (Def, Def) -> bool)
      returns (r: Option<Def>, ghost steps: seq<Step<P, D>>)
      requires PassesOk() && Respect(same) && AtWork(n, same) && Wf(d, |world.heap|)
      modifies this`states, this`passes, this`results, world
      ensures AtWork(n, same) && SameBelow(old(states), states) && Changes(old(world.heap), world.heap, n)
      ensures old(results) <= results
      ensures r.Some? ==> Wf(r.value, |world.heap|) && LookedUp(states, d, r.value)
      ensures r.Some? ==> same(d, r.value) && LeadsTo(steps, d, r.value)
      ensures r.Some? && !DepNone(d) && !d.NomRef? && Replacement(old(states), d).None? ==>
                steps != [] && steps[0].Offered?
      ensures r.Some? ==> Result(d, r.value) in results[|old(results)|..]
      ensures r.None? ==> Busy(fuel, d, same)
      decreases fuel, d, 4
    {
      steps := [];
      if DepNone(d) {
        r := Some(d);
      } else if d.NomRef? {
        See(d.nom);
        r := Some(d);
      } else {
        var known := Lookup(d);
        if known.Some? {
          r, steps := RewriteKnown(d, known.value, n, fuel, same);
        } else {
          r, steps := RewriteNew(d, n, fuel, same);
        }
      }
      if r.Some? {
        results := results + [Result(d, r.value)];
        assert results[|old(results)|..][|results| - 1 - |old(results)|] == Result(d, r.value);
      }
    }

    /** The passes leave everything as it is, and building anew gives what is asked for. */
    ghost predicate Idle() {
      && (forall p, ss, h, d {:trigger rewrite(p, ss, h, d)} :: rewrite(p, ss, h, d).result == d)
      && (forall tag, ops {:trigger rebuild(tag, ops)} :: rebuild(tag, ops) == Node(tag, ops))
    }

    /** Then every definition is rewritten to itself. */
    method RewriteIdle(d: Def, n: nat, fuel: nat) returns (r: Option<Def>)
      requires PassesOk() && Idle() && AtWork(n, Equal) && Wf(d, |world.heap|)
      modifies this`states, this`passes, this`results, world
      ensures AtWork(n, Equal) && r == Some(d)
    {
      EqualRespected();
      NotBusy(fuel, d);
      ghost var steps;
      r, steps := Rewrite(d, n, fuel, Equal);
    }

    lemma {:induction false} NotBusy(fuel: nat, d: Def)
      requires Idle()
      ensures !Busy(fuel, d, Equal)
      decreases d
    {
      if d.Proxy? || d.Node? {
        forall o | o in d.ops
          ensures !Busy(fuel, o, Equal)
        {
          NotBusy(fuel, o);
        }
      }
    }

    lemma EqualRespected()
      requires Idle()
      ensures Respect(Equal)
    {
      forall d, ops {:trigger RebuiltSame(Equal, d, ops)}
        ensures RebuiltSame(Equal, d, ops)
      {
        if |ops| == |Operands(d)| && forall i | 0 <= i < |ops| :: Equal(Operands(d)[i], ops[i]) {
          assert ops == Operands(d);
        }
      }
    }

    /** Rewrites what d was rewritten to before. */
    method RewriteKnown(d: Def, next: Def, n: nat, fuel: nat, ghost same: (Def, Def) -> bool)
      returns (r: Option<Def>, ghost steps: seq<Step<P, D>>)
      requires PassesOk() && Respect(same) && AtWork(n, same) && Wf(d, |world.heap|)
      requires !DepNone(d) && Replacement(states, d) == Some(next)
      modifies this`states, this`passes, this`results, world
      ensures AtWork(n, same) && SameBelow(old(states), states) && Changes(old(world.heap), world.heap, n)
      ensures old(results) <= results
      ensures r.Some? ==> Wf(r.value, |world.heap|) && LookedUp(states, d, r.value)
      ensures r.Some? ==> same(d, r.value) && LeadsTo(steps, d, r.value)
      ensures r.None? ==> Busy(fuel, d, same)
      decreases fuel, d, 2
    {
      ghost var step := Known(states);
      ReplacementWf(states, |world.heap|, d);
      ReplacementSame(states, same, d);
      if next == d { return Some(d), [step]; }
      ghost var more;
      r, more := RewriteNext(d, next, n, fuel, same);
      assert GoesOn(d, next, same);
      steps := [step] + more;
      if r.Some? { KnownLeads(step, more, d, next, r.value); }
    }

    /** Builds d anew from rewritten operands and lets the passes rewrite it. */
    method RewriteNew(d: Def, n: nat, fuel: nat, ghost same: (Def, Def) -> bool)
      returns (r: Option<Def>, ghost steps: seq<Step<P, D>>)
      requires PassesOk() && Respect(same) && AtWork(n, same) && Wf(d, |world.heap|) && !DepNone(d)
      modifies this`states, this`passes, this`results, world
      ensures AtWork(n, same) && SameBelow(old(states), states) && Changes(old(world.heap), world.heap, n)
      ensures old(results) <= results
      ensures r.Some? ==> Wf(r.value, |world.heap|) && LookedUp(states, d, r.value)
      ensures r.Some? ==> same(d, r.value) && LeadsTo(steps, d, r.value) && steps != [] && steps[0].Offered?
      ensures r.None? ==> Busy(fuel, d, same)
      decreases fuel, d, 3
    {
      var offered, answer;
      ghost var step;
      offered, answer, step := Offer(d, n, fuel, same);
      if offered.None? { return None, []; }
      ghost var more;
      r, more := Settle(d, offered.value, answer, n, fuel, same);
      assert answer != offered.value ==> GoesOn(d, answer, same);
      steps := [step] + more;
      if r.Some? { OfferLeads(step, more, d, offered.value, answer, r.value); }
    }

    /** Remembers the answer of the passes, or goes on with it. */
    method Settle(d: Def, offered: Def, answer: Def, n: nat, fuel: nat, ghost same: (Def, Def) -> bool)
      returns (r: Option<Def>, ghost more: seq<Step<P, D>>)
      requires PassesOk() && Respect(same) && AtWork(n, same) && Wf(answer, |world.heap|)
      requires !DepNone(d) && same(d, answer)
      modifies this`states, this`passes, this`results, world
      ensures AtWork(n, same) && SameBelow(old(states), states) && Changes(old(world.heap), world.heap, n)
      ensures old(results) <= results
      ensures r.Some? ==> Wf(r.value, |world.heap|) && LookedUp(states, d, r.value) && same(d, r.value)
      ensures r.Some? ==> if answer == offered then more == [] && r.value == offered else LeadsTo(more, answer, r.value)
      ensures r.None? ==> answer != offered && BusyAfter(fuel, answer, same)
      decreases fuel, d, 2
    {
      if answer == offered {
        Remember(d, answer, n, same);
        return Some(answer), [];
      }
      r, more := RewriteNext(d, answer, n, fuel, same);
    }

    lemma KnownLeads(step: Step<P, D>, more: seq<Step<P, D>>, d: Def, next: Def, r: Def)
      requires step.Known? && Replacement(step.states, d) == Some(next) && next != d && LeadsTo(more, next, r)
      ensures LeadsTo([step] + more, d, r)
    {
      assert ([step] + more)[1..] == more;
    }

    ghost predicate IsOffer(step: Step<P, D>, d: Def, offered: Def, answer: Def) {
      && step.Offered? && OpsLookedUp(d, step.ops, step.seen) && offered == Rebuilt(d, step.ops)
      && answer == rewrite(step.passes, step.states, step.heap, offered).result
    }

    lemma OfferLeads(step: Step<P, D>, more: seq<Step<P, D>>, d: Def, offered: Def, answer: Def, r: Def)
      requires IsOffer(step, d, offered, answer)
      requires if answer == offered then more == [] && r == offered else LeadsTo(more, answer, r)
      ensures LeadsTo([step] + more, d, r)
    {
      assert ([step] + more)[1..] == more;
    }

    /** Offers the passes what d is with rewritten operands. */
    method Offer(d: Def, n: nat, fuel: nat, ghost same: (Def, Def) -> bool)
      returns (offered: Option<Def>, answer: Def, ghost step: Step<P, D>)
      requires PassesOk() && Respect(same) && AtWork(n, same) && Wf(d, |world.heap|)
      modifies this`states, this`passes, this`results, world
      ensures AtWork(n, same) && SameBelow(old(states), states) && Changes(old(world.heap), world.heap, n)
      ensures old(results) <= results
      ensures offered.Some? ==> Wf(answer, |world.heap|) && same(d, answer)
      ensures offered.Some? ==> IsOffer(step, d, offered.value, answer)
      ensures offered.None? ==> Busy(fuel, d, same)
      decreases fuel, d, 1
    {
      ghost var ops, seen;
      offered, ops, seen := RewriteOps(d, n, fuel, same);
      step := Offered(ops, seen, passes, states, world.heap);
      if offered.None? { return None, d, step; }
      answer := AskRewrite(offered.value, n, same);
      assert Transitive(same, d, offered.value, answer);
    }

    /** Goes on with what has taken the place of d. */
    method RewriteNext(d: Def, next: Def, n: nat, fuel: nat, ghost same: (Def, Def) -> bool)
      returns (r: Option<Def>, ghost steps: seq<Step<P, D>>)
      requires PassesOk() && Respect(same) && AtWork(n, same) && Wf(next, |world.heap|)
      requires !DepNone(d) && same(d, next)
      modifies this`states, this`passes, this`results, world
      ensures AtWork(n, same) && SameBelow(old(states), states) && Changes(old(world.heap), world.heap, n)
      ensures old(results) <= results
      ensures r.Some? ==> Wf(r.value, |world.heap|) && LookedUp(states, d, r.value)
      ensures r.Some? ==> same(d, r.value) && LeadsTo(steps, next, r.value)
      ensures r.None? ==> BusyAfter(fuel, next, same)
      decreases fuel, d, 1
    {
      if fuel == 0 { return None, []; }
      r, steps := Rewrite(next, n, fuel - 1, same);
      if r.None? { return; }
      assert Transitive(same, d, next, r.value);
      Remember(d, r.value, n, same);
    }

    method Remember(d: Def, r: Def, n: nat, ghost same: (Def, Def) -> bool)
      requires AtWork(n, same) && Wf(r, |world.heap|) && same(d, r) && same(r, r)
      modifies this`states
      ensures AtWork(n, same) && SameBelow(old(states), states) && Replacement(states, d) == Some(r)
    {
      KeepMore(states, same, d, r);
      Map(d, r);
    }

    /** d built anew from rewritten operands; a variable has none. */
    method RewriteOps(d: Def, n: nat, fuel: nat, ghost same: (Def, Def) -> bool)
      returns (offered: Option<Def>, ghost ops: seq<Def>, ghost seen: seq<States<D>>)
      requires PassesOk() && Respect(same) && AtWork(n, same) && Wf(d, |world.heap|)
      modifies this`states, this`passes, this`results, world
      ensures AtWork(n, same) && SameBelow(old(states), states) && Changes(old(world.heap), world.heap, n)
      ensures old(results) <= results
      ensures offered.Some? ==> Wf(offered.value, |world.heap|) && same(d, offered.value)
      ensures offered.Some? ==> offered.value == Rebuilt(d, ops) && OpsLookedUp(d, ops, seen)
      ensures offered.None? ==> Busy(fuel, d, same)
      decreases fuel, d, 0, 2
    {
      ops, seen := [], [];
      if !d.Proxy? && !d.Node? { return Some(d), ops, seen; }
      var newOps;
      newOps, seen := RewriteOperands(d, n, fuel, same);
      if newOps.None? { return None, ops, seen; }
      ops := newOps.value;
      offered := Some(if d.Proxy? then Proxy(d.pass, newOps.value) else rebuild(d.tag, newOps.value));
      AllDone(d, ops, seen, same, |world.heap|);
    }

    method RewriteOperands(d: Def, n: nat, fuel: nat, ghost same: (Def, Def) -> bool)
      returns (ops: Option<seq<Def>>, ghost seen: seq<States<D>>)
      requires PassesOk() && Respect(same) && AtWork(n, same) && Wf(d, |world.heap|) && (d.Proxy? || d.Node?)
      modifies this`states, this`passes, this`results, world
      ensures AtWork(n, same) && SameBelow(old(states), states) && Changes(old(world.heap), world.heap, n)
      ensures old(results) <= results
      ensures ops.Some? ==> |ops.value| == |d.ops| && OpsDone(d, ops.value, seen, same, |world.heap|)
      ensures ops.None? ==> Busy(fuel, d, same)
      decreases fuel, d, 0, 1
    {
      var newOps: seq<Def> := [];
      ghost var gid := |world.heap|;
      seen := [];
      for i := 0 to |d.ops|
        invariant AtWork(n, same) && SameBelow(old(states), states) && Changes(old(world.heap), world.heap, n)
        invariant old(results) <= results
        invariant |newOps| == i && OpsDone(d, newOps, seen, same, |world.heap|)
      {
        OperandWf(d, i, gid, |world.heap|);
        var op;
        op, seen := RewriteOperand(d, newOps, seen, n, fuel, same);
        if op.None? { return None, seen; }
        newOps := newOps + [op.value];
      }
      return Some(newOps), seen;
    }

    lemma OperandWf(d: Def, i: nat, gid: nat, gid': nat)
      requires (d.Proxy? || d.Node?) && i < |d.ops| && Wf(d, gid) && gid <= gid'
      ensures Wf(d.ops[i], gid')
    {
      WfMore(d.ops[i], gid, gid');
    }

    lemma BusyOperand(fuel: nat, d: Def, i: nat, same: (Def, Def) -> bool)
      requires (d.Proxy? || d.Node?) && i < |d.ops| && Busy(fuel, d.ops[i], same)
      ensures Busy(fuel, d, same)
    {
      assert d.ops[i] in d.ops;
    }

    /** Rewrites the operand of d that comes after ops. */
    method RewriteOperand(d: Def, ops: seq<Def>, ghost seen0: seq<States<D>>, n: nat, fuel: nat,
                          ghost same: (Def, Def) -> bool)
      returns (op: Option<Def>, ghost seen: seq<States<D>>)
      requires PassesOk() && Respect(same) && AtWork(n, same) && (d.Proxy? || d.Node?)
      requires |ops| < |d.ops| && Wf(d.ops[|ops|], |world.heap|) && OpsDone(d, ops, seen0, same, |world.heap|)
      modifies this`states, this`passes, this`results, world
      ensures AtWork(n, same) && SameBelow(old(states), states) && Changes(old(world.heap), world.heap, n)
      ensures old(results) <= results
      ensures op.Some? ==> OpsDone(d, ops + [op.value], seen, same, |world.heap|)
      ensures op.None? ==> Busy(fuel, d, same)
      decreases fuel, d, 0, 0
    {
      ghost var gid, how := |world.heap|, [];
      op, how := Rewrite(d.ops[|ops|], n, fuel, same);
      seen := seen0 + [states];
      if op.Some? {
        NextOp(d, ops, seen0, same, gid, |world.heap|, op.value, states);
      } else {
        BusyOperand(fuel, d, |ops|, same);
      }
    }

    lemma QuietEnter(heap: Heap, n: nat, acts: seq<Act>)
      requires Quiet() ==> NoWrites(acts)
      ensures Quiet() ==> Extends(heap, AfterActs(heap, n, acts))
    {
      if Quiet() { QuietActs(heap, n, acts); }
    }

    lemma AllDone(d: Def, ops: seq<Def>, seen: seq<States<D>>, same: (Def, Def) -> bool, gid: nat)
      requires PassesOk() && Respect(same) && OpsDone(d, ops, seen, same, gid) && |ops| == |Operands(d)|
      requires d.Proxy? || d.Node?
      ensures Wf(Rebuilt(d, ops), gid) && same(d, Rebuilt(d, ops)) && OpsLookedUp(d, ops, seen)
    {
      forall i | 0 <= i < |ops|
        ensures LookedUp(seen[i], Operands(d)[i], ops[i]) && same(Operands(d)[i], ops[i]) && Wf(ops[i], gid)
      {
        assert OpDone(seen[i], d.ops[i], ops[i], same, gid);
      }
      assert RebuiltSame(same, d, ops);
    }

    /** Lets the passes enter the current nominal and rewrites its operands one by one. A nominal whose last operand is
        set is supposed to have them all; one that is missing is skipped here. Unless the passes write operands
        themselves, every one becomes what it was rewritten to. */
    method RewriteBody(n: nat, fuel: nat, ghost same: (Def, Def) -> bool) returns (done: bool)
      requires PassesOk() && Respect(same) && AtWork(n, same)
      modifies this`states, this`passes, this`results, world
      ensures AtWork(n, same) && SameBelow(old(states), states) && OnlyChanges(old(world.heap), world.heap, n)
      ensures old(results) <= results
      ensures done && Quiet() ==>
                RewrittenUpTo(old(world.heap[n]), world.heap[n], |world.heap[n]|, results[|old(results)|..])
    {
      EnterBody(n, same);
      done := RewriteAll(n, fuel, same);
    }

    method EnterBody(n: nat, ghost same: (Def, Def) -> bool)
      requires PassesOk() && AtWork(n, same)
      modifies this`states, this`passes, world
      ensures AtWork(n, same) && SameBelow(old(states), states) && OnlyChanges(old(world.heap), world.heap, n)
      ensures Quiet() ==> world.heap[n] == old(world.heap[n])
    {
      ghost var before := states;
      var entered := enter(passes, states, world.heap);
      Follow(n, entered);
      KeepStays(before, states, same);
      QuietEnter(old(world.heap), n, entered.acts);
    }

    method RewriteAll(n: nat, fuel: nat, ghost same: (Def, Def) -> bool) returns (done: bool)
      requires PassesOk() && Respect(same) && AtWork(n, same)
      modifies this`states, this`passes, this`results, world
      ensures AtWork(n, same) && SameBelow(old(states), states) && OnlyChanges(old(world.heap), world.heap, n)
      ensures old(results) <= results
      ensures done && Quiet() ==>
                RewrittenUpTo(old(world.heap[n]), world.heap[n], |world.heap[n]|, results[|old(results)|..])
    {
      ghost var before, log0 := world.heap[n], results;
      for i := 0 to |world.heap[n]|
        invariant AtWork(n, same) && SameBelow(old(states), states) && OnlyChanges(old(world.heap), world.heap, n)
        invariant log0 <= results && (Quiet() ==> RewrittenUpTo(before, world.heap[n], i, results[|log0|..]))
      {
        ghost var was, log := world.heap[n], results;
        done := RewriteOp(n, i, fuel, same);
        if !done { return; }
        if Quiet() {
          RewrittenNext(before, was, world.heap[n], i, log[|log0|..], results[|log0|..]);
        }
      }
      done := true;
    }

    method RewriteOp(n: nat, i: nat, fuel: nat, ghost same: (Def, Def) -> bool) returns (done: bool)
      requires PassesOk() && Respect(same) && AtWork(n, same) && i < |world.heap[n]|
      modifies this`states, this`passes, this`results, world
      ensures AtWork(n, same) && SameBelow(old(states), states) && OnlyChanges(old(world.heap), world.heap, n)
      ensures old(results) <= results
      ensures Quiet() ==> forall k | 0 <= k < |world.heap[n]| && k != i :: world.heap[n][k] == old(world.heap[n][k])
      ensures done ==> OpRewritten(old(world.heap[n][i]), world.heap[n][i], results[|old(results)|..])
      ensures done && world.heap[n][i].Some? ==>
                && LookedUp(states, old(world.heap[n][i]).value, world.heap[n][i].value)
                && same(old(world.heap[n][i]).value, world.heap[n][i].value)
    {
      if world.heap[n][i].None? { return true; }
      assert world.heap[n][i] in world.heap[n];
      var r;
      ghost var steps;
      r, steps := Rewrite(world.heap[n][i].value, n, fuel, same);
      if r.None? { return false; }
      ghost var was := world.heap;
      world.Set(n, i, r);
      HistWrites(states, snaps, was, world.heap);
      done := true;
    }

    /** Analyzes d and what it consists of; nominals met for the first time are put on the visit stack. The passes are
        asked about everything else that is new, and u is the earliest point they want to go back to. */
    method Analyze(d: Def, ghost open: set<Def>) returns (u: Undo)
      requires InStep() && Wf(d, |world.heap|) && Closed(AllAnalyzed(states), open)
      modifies this`states, this`passes, this`heard
      ensures InStep() && Found(old(states), states)
      ensures Closed(AllAnalyzed(states), open) && Covered(AllAnalyzed(states), d)
      ensures u.To? ==> 1 <= u.state < |states|
      ensures AllHeard(u, old(heard), heard, AllAnalyzed(old(states)), AllAnalyzed(states))
      decreases d
    {
      ghost var all := AllAnalyzed(states);
      HeardNothing(heard, all, all);
      if DepNone(d) { return NoUndo; }
      var was := Find(d, open);
      if was { return NoUndo; }
      if d.NomRef? {
        HeardNothing(heard, all, AllAnalyzed(states));
        return NoUndo;
      }
      u := AnalyzeNew(d, open);
      assert AllHeard(u, old(heard), heard, all, AllAnalyzed(states));
    }

    /** Has d been found? If not, it is now, and a nominal is put on the visit stack. */
    method Find(d: Def, ghost open: set<Def>) returns (was: bool)
      requires InStep() && Wf(d, |world.heap|) && Closed(AllAnalyzed(states), open)
      modifies this`states
      ensures InStep() && Found(old(states), states) && was == (d in AllAnalyzed(old(states)))
      ensures was ==> states == old(states)
      ensures AllAnalyzed(states) == AllAnalyzed(old(states)) + {d}
      ensures if d.Node? && !was then Closed(AllAnalyzed(states), open + {d}) else Closed(AllAnalyzed(states), open)
    {
      ghost var before := states;
      was := Analyzed(d);
      if !was {
        FindStep(before, snaps, world.heap, d, open);
        FindAdds(before, d);
        if d.NomRef? { PushNom(before, d); }
        assert states == SetTop(before, FindTop(before, d));
      }
    }

    method PushNom(ghost before: States<D>, d: Def)
      requires d.NomRef? && before != [] && |states| == |before|
      requires states == SetTop(before, Top(before).(analyzed := Top(before).analyzed + {d}))
      modifies this`states
      ensures states == SetTop(before, FindTop(before, d))
    {
      SetTwice(before, states, Top(states).(stack := Top(states).stack + [d.nom]));
      states := SetTop(states, Top(states).(stack := Top(states).stack + [d.nom]));
    }

    /** d has just been found. */
    method AnalyzeNew(d: Def, ghost open: set<Def>) returns (u: Undo)
      requires InStep() && Wf(d, |world.heap|) && d in AllAnalyzed(states) && !d.NomRef?
      requires if d.Node? then Closed(AllAnalyzed(states), open + {d}) else Closed(AllAnalyzed(states), open)
      modifies this`states, this`passes, this`heard
      ensures InStep() && Found(old(states), states) && Closed(AllAnalyzed(states), open)
      ensures u.To? ==> 1 <= u.state < |states|
      ensures forall all | AllAnalyzed(old(states)) == all + {d} ::
                AllHeard(u, old(heard), heard, all, AllAnalyzed(states))
      decreases d, 1
    {
      u := NoUndo;
      if d.Node? {
        u := AnalyzeOps(d, open);
      }
      ghost var log := heard;
      var v := Ask(d);
      forall all | AllAnalyzed(old(states)) == all + {d}
        ensures AllHeard(Min(u, v), old(heard), heard, all, AllAnalyzed(states))
      {
        HeardOne(u, v, old(heard), log, heard, all, AllAnalyzed(states), d);
      }
      u := Min(u, v);
    }

    method AnalyzeOps(d: Def, ghost open: set<Def>) returns (u: Undo)
      requires d.Node? && InStep() && Wf(d, |world.heap|) && Closed(AllAnalyzed(states), open + {d})
               && d in AllAnalyzed(states)
      modifies this`states, this`passes, this`heard
      ensures InStep() && Found(old(states), states)
      ensures Closed(AllAnalyzed(states), open)
      ensures u.To? ==> 1 <= u.state < |states|
      ensures AllHeard(u, old(heard), heard, AllAnalyzed(old(states)), AllAnalyzed(states))
      decreases d, 0
    {
      u := NoUndo;
      for i := 0 to |d.ops|
        invariant InStep() && Found(old(states), states)
        invariant Closed(AllAnalyzed(states), open + {d})
        invariant forall j | 0 <= j < i :: Covered(AllAnalyzed(states), d.ops[j])
        invariant u.To? ==> 1 <= u.state < |states|
        invariant AllHeard(u, old(heard), heard, AllAnalyzed(old(states)), AllAnalyzed(states))
      {
        ghost var log, all := heard, AllAnalyzed(states);
        var v := Analyze(d.ops[i], open + {d});
        HeardMore(u, v, old(heard), log, heard, AllAnalyzed(old(states)), all, AllAnalyzed(states));
        u := Min(u, v);
      }
      CloseOne(AllAnalyzed(states), open, d);
    }

    /** Asks the passes what they think of d. */
    method Ask(d: Def) returns (u: Undo)
      requires InStep()
      modifies this`states, this`passes, this`heard
      ensures InStep() && Found(old(states), states) && AllAnalyzed(states) == AllAnalyzed(old(states))
      ensures u.To? ==> 1 <= u.state < |states|
      ensures |heard| == |old(heard)| + 1 && heard[..|old(heard)|] == old(heard) && heard[|old(heard)|].def == d
      ensures var points := heard[|old(heard)|].points;
              var requests := analyze(old(passes), old(states), world.heap, d).requests;
              && |points| == |requests| && forall i | 0 <= i < |points| :: LeadsBack(states, requests[i], points[i])
      ensures Earliest(u, heard[|old(heard)|..])
    {
      var a := analyze(passes, states, world.heap, d);
      passes := a.passes;
      SetData(a.data);
      ghost var points;
      u, points := FollowRequests(a.requests);
      heard := heard + [Heard(d, points)];
    }

    /** The earliest of the points that are asked for. */
    method FollowRequests(requests: seq<Request>) returns (u: Undo, ghost points: seq<Undo>)
      requires InStep()
      ensures u.To? ==> 1 <= u.state < |states|
      ensures |points| == |requests| && forall i | 0 <= i < |points| :: LeadsBack(states, requests[i], points[i])
      ensures (forall p | p in points :: NotAfter(u, p)) && (u.To? ==> u in points)
    {
      u, points := NoUndo, [];
      for i := 0 to |requests|
        invariant u.To? ==> 1 <= u.state < |states|
        invariant |points| == i && forall j | 0 <= j < i :: LeadsBack(states, requests[j], points[j])
        invariant (forall p | p in points :: NotAfter(u, p)) && (u.To? ==> u in points)
      {
        var v;
        match requests[i] {
          case UndoVisit(n) => v := UndoVisitOf(n);
          case UndoEnter(n) => v := UndoEnterOf(n);
        }
        u, points := Min(u, v), points + [v];
      }
    }

    /** Pushes a state and takes the next nominal off its stack. */
    method NextNom() returns (n: nat)
      requires Valid() && Settled(states, world.heap) && Top(states).stack != []
      modifies this`states, this`snaps
      ensures Valid() && Closed(AllAnalyzed(states), {})
      ensures |states| == |old(states)| + 1 && states[..|states| - 1] == old(states)
      ensures snaps == old(snaps) + [Snap(old(states), world.heap)]
      ensures n == old(Last(Top(states).stack)) < |world.heap| && Top(states).currNom == Some(n)
              && Top(states).old2new == map[]
    {
      n := Last(Top(states).stack);
      assert n < |world.heap|;
      HistPushes(states, snaps, world.heap, NextState(states, world.heap).(stack := Pop(Top(states).stack)));
      PushState();
      states := SetTop(states, Top(states).(stack := Pop(Top(states).stack)));
    }

    /** Analyzes the operands of the current nominal. */
    method AnalyzeBody(n: nat) returns (u: Undo)
      requires Valid() && |states| > 1 && Top(states).currNom == Some(n) && n < |world.heap|
      requires Closed(AllAnalyzed(states), {}) && MapsOk(states, |world.heap|)
      modifies this`states, this`passes, this`heard
      ensures Valid() && Found(old(states), states) && Settled(states, world.heap)
      ensures u.To? ==> 1 <= u.state < |states|
      ensures AllHeard(u, old(heard), heard, AllAnalyzed(old(states)), AllAnalyzed(states))
    {
      u := NoUndo;
      var ops := world.heap[n];
      for i := 0 to |ops|
        invariant Valid() && Found(old(states), states) && Closed(AllAnalyzed(states), {})
        invariant forall j | 0 <= j < i && ops[j].Some? :: Covered(AllAnalyzed(states), ops[j].value)
        invariant u.To? ==> 1 <= u.state < |states|
        invariant AllHeard(u, old(heard), heard, AllAnalyzed(old(states)), AllAnalyzed(states))
      {
        if ops[i].Some? {
          assert ops[i] in ops;
          ghost var log, all := heard, AllAnalyzed(states);
          var v := Analyze(ops[i].value, {});
          HeardMore(u, v, old(heard), log, heard, AllAnalyzed(old(states)), all, AllAnalyzed(states));
          u := Min(u, v);
        }
      }
    }

    /** Rewrites and analyzes the next nominal; rolls back if a pass asks for it. */
    method VisitNext(fuel: nat) returns (u: Undo, done: bool)
      requires PassesOk() && Valid() && MapsOk(states, |world.heap|) && Settled(states, world.heap)
               && Top(states).stack != []
      modifies this`states, this`snaps, this`passes, this`heard, this`results, world
      ensures Valid() && MapsOk(states, |world.heap|) && (done ==> Settled(states, world.heap)) && (!done ==> u.NoUndo?)
      ensures done ==> old(heard) <= heard && Earliest(u, heard[|old(heard)|..])
      ensures u.NoUndo? ==> |states| == |old(states)| + 1 && states[..|states| - 1] == old(states)
      ensures u.NoUndo? ==> snaps == old(snaps) + [Snap(old(states), old(world.heap))]
      ensures u.To? ==> 1 <= u.state <= |old(states)| && u.state < |old(snaps)| + 1
      ensures u.To? ==> states == old(states)[..u.state]
      ensures u.To? ==> Restored((old(snaps) + [Snap(old(states), old(world.heap))])[u.state], states, world.heap)
    {
      var n := NextNom();
      MapsPush(old(states), states, |world.heap|);
      u, done := Visit(n, fuel);
      if u.To? {
        assert states[..u.state] == old(states)[..u.state];
        ghost var all := states;
        PopStates(u.state);
        MapsPop(all, states, |world.heap|);
      }
    }

    /** Rewrites and analyzes the nominal of the new state. */
    method Visit(n: nat, fuel: nat) returns (u: Undo, done: bool)
      requires PassesOk() && Valid() && MapsOk(states, |world.heap|) && Closed(AllAnalyzed(states), {})
      requires |states| > 1 && Top(states).currNom == Some(n) && n < |world.heap|
      modifies this`states, this`passes, this`heard, this`results, world
      ensures Valid() && MapsOk(states, |world.heap|) && (done ==> Settled(states, world.heap)) && (!done ==> u.NoUndo?)
      ensures |states| == |old(states)| && states[..|states| - 1] == old(states[..|states| - 1])
      ensures u.To? ==> 1 <= u.state < |states|
      ensures done ==> old(heard) <= heard && Earliest(u, heard[|old(heard)|..])
    {
      if !IsSet(world.heap[n]) {
        return NoUndo, true;
      }
      done := RewriteBody(n, fuel, Always);
      if !done { return NoUndo, false; }
      ghost var was := states;
      u := AnalyzeBody(n);
      MapsStay(was, states, |world.heap|, |world.heap|);
    }

    /** The first state has found the external nominals. */
    method Begin(externals: seq<nat>, data: D)
      requires states == [] && world.Valid() && PassesOk()
      requires NoDup(externals) && forall n | n in externals :: n < |world.heap|
      modifies this`states, this`snaps
      ensures Valid() && MapsOk(states, |world.heap|) && Settled(states, world.heap) && |states| == 1
      ensures forall n | n in externals :: NomRef(n) in states[0].analyzed
    {
      states := [State(None, [], [], map[], data, map[], {})];
      snaps := [Snap([], world.heap)];
      for i := 0 to |externals|
        invariant Valid() && Closed(AllAnalyzed(states), {}) && |states| == 1 && states[0].old2new == map[]
        invariant states[0].analyzed == NomRefs(externals[..i])
      {
        assert externals[i] in externals && externals[i] !in externals[..i];
        AddExternal(externals[i]);
        assert externals[..i + 1] == externals[..i] + [externals[i]];
      }
      assert externals[..|externals|] == externals;
    }

    method AddExternal(n: nat)
      requires Valid() && Closed(AllAnalyzed(states), {}) && |states| == 1
      requires n < |world.heap| && NomRef(n) !in states[0].analyzed
      modifies this`states
      ensures Valid() && Closed(AllAnalyzed(states), {}) && |states| == 1
      ensures states[0].analyzed == old(states[0].analyzed) + {NomRef(n)} && states[0].old2new == old(states[0].old2new)
    {
      OneState(states);
      FindStep(states, snaps, world.heap, NomRef(n), {});
      var _ := Analyzed(NomRef(n));
      states := SetTop(states, Top(states).(stack := Top(states).stack + [n]));
    }

    /** Visits the external nominals and whatever they lead to, for at most so many steps, each of at most so many
        rounds of rewriting a definition. */
    method Run(externals: seq<nat>, data: D, steps: nat, fuel: nat) returns (done: bool, ghost visited: set<nat>)
      requires states == [] && world.Valid() && PassesOk()
      requires NoDup(externals) && forall n | n in externals :: n < |world.heap|
      modifies this`states, this`snaps, this`passes, this`heard, this`results, world
      ensures world.Valid() && (if done then states == [] else Valid())
      ensures done ==> forall n | n in externals :: n in visited
      ensures done ==> forall n, m | n in visited && RefersTo(world.heap, n, m) :: m in visited
    {
      Begin(externals, data);
      ghost var first := states[0];
      var k := steps;
      var ok := true;
      visited := {};
      while ok && Top(states).stack != [] && k > 0
        invariant Valid() && MapsOk(states, |world.heap|) && (ok ==> Settled(states, world.heap)) && states[0] == first
        decreases k
      {
        var u;
        u, ok := VisitNext(fuel);
        k := k - 1;
      }
      done := ok && Top(states).stack == [];
      if done {
        visited := set n | 0 <= n < |world.heap| && IsVisited(states, n);
        AllVisited(states, snaps, world.heap);
        FirstAnalyzed(states);
        PopStates(0);
      }
    }
  }

  /** A visited nominal's operands have all been found. */
  lemma {:induction false} VisitedFound<D>(states: States<D>, snaps: seq<Snap<D>>, heap: Heap, n: nat)
    requires Hist(states, snaps, heap) && Settled(states, heap) && IsVisited(states, n)
    ensures n < |heap| && AllFound(states, heap[n])
    decreases |states|
  {
    var k := |states| - 1;
    var j :| 1 <= j < |states| && states[j].currNom == Some(n);
    if j < k {
      assert states[..k][j].currNom == Some(n);
      assert IsVisited(states[..k], n);
      VisitedFound(states[..k], snaps[..k], snaps[k].heap, n);
      assert n !in Top(states[..k]).stack;
    }
  }

  function NomRefs(noms: seq<nat>): (r: set<Def>)
    ensures forall n :: NomRef(n) in r <==> n in noms
  {
    set n | n in noms :: NomRef(n)
  }

  lemma OneState<D>(states: States<D>)
    requires |states| == 1
    ensures AllAnalyzed(states) == states[0].analyzed
  {
    assert AllAnalyzed(states[..0]) == {};
  }

  lemma {:induction false} FirstAnalyzed<D>(states: States<D>)
    requires states != []
    ensures states[0].analyzed <= AllAnalyzed(states)
  {
    if |states| > 1 { FirstAnalyzed(states[..|states| - 1]); }
  }

  lemma {:induction false} CoveredNoms(all: set<Def>, d: Def, n: nat)
    requires Closed(all, {}) && Covered(all, d) && n in NomsOf(d)
    ensures NomRef(n) in all
  {
    if d.Node? {
      var o :| o in d.ops && n in NomsOf(o);
      assert d in all ==> OpsCovered(all, d);
      CoveredNoms(all, o, n);
    }
  }

  /** Once the visit stack is empty, the visited nominals refer to visited nominals only. */
  lemma AllVisited<D>(states: States<D>, snaps: seq<Snap<D>>, heap: Heap)
    requires Hist(states, snaps, heap) && Settled(states, heap) && Top(states).stack == []
    ensures forall n: nat | NomRef(n) in AllAnalyzed(states) :: n < |heap| && IsVisited(states, n)
    ensures forall n: nat, m: nat | IsVisited(states, n) && RefersTo(heap, n, m) :: IsVisited(states, m)
  {
    forall n: nat | NomRef(n) in AllAnalyzed(states)
      ensures n < |heap| && IsVisited(states, n)
    {
      VisitedFound(states, snaps, heap, n);
    }
    forall n: nat, m: nat | IsVisited(states, n) && RefersTo(heap, n, m)
      ensures IsVisited(states, m)
    {
      VisitedFound(states, snaps, heap, n);
      var o :| o in heap[n] && o.Some? && m in NomsOf(o.value);
      CoveredNoms(AllAnalyzed(states), o.value, m);
    }
  }

  /** The same states, but the top has analyzed more and has more to visit. */
  ghost predicate Found<D>(states: States<D>, states': States<D>) {
    && |states'| == |states| > 0 && states'[..|states| - 1] == states[..|states| - 1]
    && Top(states').currNom == Top(states).currNom && Top(states').oldOps == Top(states).oldOps
    && Top(states').old2new == Top(states).old2new
    && AllAnalyzed(states) <= AllAnalyzed(states')
  }

  /** The top state after from has been mapped to to. */
  function Mapped<D>(states: States<D>, from: Def, to: Def): State<D>
    requires states != []
  {
    var m := Top(states).old2new[from := to];
    Top(states).(old2new := if to in m then m else m[to := to])
  }

  lemma MapKeeps<D>(states: States<D>, snaps: seq<Snap<D>>, heap: Heap, from: Def, to: Def)
    requires Hist(states, snaps, heap)
    ensures Hist(SetTop(states, Mapped(states, from, to)), snaps, heap)
    ensures SameBelow(states, SetTop(states, Mapped(states, from, to)))
  {
    HistKeepsVisits(states, snaps, heap, Mapped(states, from, to));
  }

  lemma MapReplaces<D>(states: States<D>, from: Def, to: Def)
    requires states != []
    ensures var states' := SetTop(states, Mapped(states, from, to));
            && Replacement(states', from) == Some(to) && Replacement(states', to).Some?
            && forall d | d != from && d != to :: Replacement(states', d) == Replacement(states, d)
  {
    var states' := SetTop(states, Mapped(states, from, to));
    assert states'[..|states| - 1] == states[..|states| - 1];
  }

  lemma HistKeepsVisits<D>(states: States<D>, snaps: seq<Snap<D>>, heap: Heap, top: State<D>)
    requires Hist(states, snaps, heap) && SameTop(Top(states), top) && top.nom2visit == Top(states).nom2visit
    ensures Hist(SetTop(states, top), snaps, heap)
  {
    var states' := SetTop(states, top);
    assert states'[..|states| - 1] == states[..|states| - 1];
    SameVisits(states, states');
    HistKeeps(states, snaps, heap, top);
  }

  /** The first state has no nominal. */
  lemma {:induction false} HistStart<D>(states: States<D>, snaps: seq<Snap<D>>, heap: Heap)
    requires Hist(states, snaps, heap)
    ensures states[0].currNom == None
    decreases |states|
  {
    var k := |states| - 1;
    if k > 0 { HistStart(states[..k], snaps[..k], snaps[k].heap); }
  }

  /** Popping has come down to states. */
  ghost predicate Popped<D>(states0: States<D>, snaps0: seq<Snap<D>>, states: States<D>, snaps: seq<Snap<D>>, undo: nat,
                            heap: Heap) {
    && undo <= |states| <= |states0| == |snaps0| && states == states0[..|states|] && snaps == snaps0[..|states|]
    && (undo > 0 ==> Hist(states, snaps, heap))
    && (undo > 0 && |states| < |states0| ==> Restored(snaps0[|states|], states, heap) && Settled(states, heap))
  }

  /** Everything is as it was when the snapshot was taken, but for nominals created since. */
  ghost predicate Restored<D>(snap: Snap<D>, states: States<D>, heap: Heap) {
    states == snap.states && Extends(snap.heap, heap)
  }

  /** The operands are ready for the top state to go. */
  ghost predicate Undone<D>(states: States<D>, snaps: seq<Snap<D>>, heap: Heap) {
    && |states| == |snaps| > 1
    && var k := |states| - 1;
       && snaps[k].states == states[..k] && Extends(snaps[k].heap, heap)
       && Hist(states[..k], snaps[..k], heap) && Settled(states[..k], heap)
  }

  lemma PopStart<D>(states: States<D>, snaps: seq<Snap<D>>, heap: Heap, undo: nat)
    requires Hist(states, snaps, heap) && undo <= |states|
    ensures Popped(states, snaps, states, snaps, undo, heap)
  {
    assert states[..|states|] == states && snaps[..|states|] == snaps;
  }

  lemma PopStep<D>(states0: States<D>, snaps0: seq<Snap<D>>, states: States<D>, snaps: seq<Snap<D>>, undo: nat,
                   heap: Heap)
    requires undo < |states| <= |states0| == |snaps0| && states == states0[..|states|] && snaps == snaps0[..|states|]
    requires undo > 0 ==> Undone(states, snaps, heap)
    ensures Popped(states0, snaps0, Pop(states), Pop(snaps), undo, heap)
  {
    var k := |states| - 1;
    assert states[..k] == states0[..k] && snaps[..k] == snaps0[..k];
    assert undo > 0 ==> snaps[k] == snaps0[k];
  }

  lemma OldOpsWf<D>(states: States<D>, snaps: seq<Snap<D>>, heap: Heap)
    requires Hist(states, snaps, heap) && |states| > 1
    ensures WfOps(Top(states).oldOps, |heap|)
  {
    WfOpsMore(Top(states).oldOps, |snaps[|states| - 1].heap|, |heap|);
  }
}
