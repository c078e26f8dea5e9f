/**
 The account index under concurrent block transactions. The after-create hook reads an account's list
 and later writes it back with one more table; the write and the row become visible at the commit. A
 transaction is modelled account by account: one with several accounts acts as one updater for each.
 */
module IndexRace {
  import opened Basics
  import opened CursorDao

  type Index = map<string, seq<nat>>

  /** A transaction that inserts an extrinsic of the account in the table, with the list its hook has read. */
  datatype Updater = Idle | Holding(account: string, table: nat, seen: Option<seq<nat>>)

  datatype State = State(
    index: Index,                  // the committed lists
    rows: set<(string, nat)>,      // accounts with the tables in which they have a committed row
    updaters: map<nat, Updater>,
    overlap: bool)                 // whether a transaction may start on an account that another one holds

  datatype Step = Read(w: nat, account: string, table: nat) | Commit(w: nat) | Abort(w: nat)

  function Lookup(index: Index, account: string): Option<seq<nat>> {
    if account in index then Some(index[account]) else None
  }

  /** The hook's write: a create that ignores duplicates, an update of the whole list, or nothing. */
  function Update(index: Index, u: Updater): Index {
    match u
    case Idle => index
    case Holding(a, t, None) => if a in index then index else index[a := [t]]
    case Holding(a, t, Some(l)) => if t in l then index else index[a := l + [t]]
  }

  predicate Holds(s: State, w: nat, account: string) {
    w in s.updaters && s.updaters[w].Holding? && s.updaters[w].account == account
  }

  ghost predicate Enabled(s: State, step: Step) {
    match step
    case Read(w, a, _) =>
      a != "" && w in s.updaters && s.updaters[w].Idle? && (s.overlap || forall v :: !Holds(s, v, a))
    case Commit(w) => w in s.updaters && s.updaters[w].Holding?
    case Abort(w) => w in s.updaters && s.updaters[w].Holding?
  }

  function Apply(s: State, step: Step): State {
    match step
    case Read(w, a, t) => s.(updaters := s.updaters[w := Holding(a, t, Lookup(s.index, a))])
    case Commit(w) =>
      if w in s.updaters && s.updaters[w].Holding? then
        var u := s.updaters[w];
        s.(index := Update(s.index, u), rows := s.rows + {(u.account, u.table)}, updaters := s.updaters[w := Idle])
      else s
    case Abort(w) => s.(updaters := s.updaters[w := Idle])
  }

  /** Reading and rolling back write nothing; a commit adds its one row and writes no other account's list. */
  lemma OnlyCommitsWrite(s: State, step: Step)
    requires Enabled(s, step)
    ensures var s' := Apply(s, step);
            if step.Commit? then
              var u := s.updaters[step.w];
              && s'.rows == s.rows + {(u.account, u.table)} && s'.updaters == s.updaters[step.w := Idle]
              && forall a :: a != u.account ==> Lookup(s'.index, a) == Lookup(s.index, a)
            else s'.rows == s.rows && s'.index == s.index
  {
  }

  ghost predicate Next(s: State, s': State) {
    exists step :: Enabled(s, step) && s' == Apply(s, step)
  }

  /** Every committed row's table is listed for its account, and no list has duplicates. */
  ghost predicate Sound(s: State) {
    && (forall p :: p in s.rows ==> p.0 in s.index && p.1 in s.index[p.0])
    && (forall a :: a in s.index ==> NoDuplicates(s.index[a]))
  }

  datatype Run = Start(state: State) | Then(before: Run, state: State)

  ghost predicate IsRun(run: Run) {
    match run
    case Start(s) => Sound(s) && forall w :: w in s.updaters ==> s.updaters[w].Idle?
    case Then(before, s) => IsRun(before) && Next(before.state, s)
  }

  // ---------- one transaction at a time ----------

  /** What a hook has read is still the committed list. */
  ghost predicate IsFresh(s: State) {
    forall w :: w in s.updaters && s.updaters[w].Holding? ==>
      s.updaters[w].seen == Lookup(s.index, s.updaters[w].account)
  }

  ghost predicate OneHolder(s: State) {
    forall v, w, a :: Holds(s, v, a) && Holds(s, w, a) ==> v == w
  }

  ghost predicate Inv(s: State) {
    Sound(s) && IsFresh(s) && OneHolder(s)
  }

  /** A hook with a fresh list lists the table, as the hook of a lone transaction does. */
  lemma FreshUpdate(index: Index, u: Updater)
    requires u.Holding? && u.seen == Lookup(index, u.account) && u.account != ""
    ensures Update(index, u) == Indexed(index, u.account, u.table)
  {
  }

  lemma UpdateKeepsOthers(index: Index, u: Updater, a: string)
    requires u.Holding? ==> u.account != a
    ensures Lookup(Update(index, u), a) == Lookup(index, a)
  {
  }

  lemma CommitKeepsSound(s: State, u: Updater)
    requires Sound(s) && u.Holding? && u.seen == Lookup(s.index, u.account)
    ensures Sound(s.(index := Update(s.index, u), rows := s.rows + {(u.account, u.table)}))
  {
  }

  lemma CommitKeepsInv(s: State, w: nat)
    requires Inv(s) && Enabled(s, Commit(w))
    ensures Inv(Apply(s, Commit(w)))
  {
    var u, s' := s.updaters[w], Apply(s, Commit(w));
    CommitKeepsSound(s, u);
    assert Holds(s, w, u.account);
    forall v | v in s'.updaters && s'.updaters[v].Holding?
      ensures s'.updaters[v].seen == Lookup(s'.index, s'.updaters[v].account)
    {
      assert Holds(s, v, s.updaters[v].account);
      UpdateKeepsOthers(s.index, u, s.updaters[v].account);
    }
    assert forall v, a :: Holds(s', v, a) ==> Holds(s, v, a);
  }

  lemma ReadKeepsInv(s: State, w: nat, account: string, table: nat)
    requires Inv(s) && Enabled(s, Read(w, account, table)) && (!s.overlap || AtMostOne(s.updaters.Keys))
    ensures Inv(Apply(s, Read(w, account, table)))
  {
    var s' := Apply(s, Read(w, account, table));
    assert forall v, a :: Holds(s', v, a) ==> Holds(s, v, a) || (v == w && a == account);
  }

  lemma StepKeepsInv(s: State, step: Step)
    requires Inv(s) && Enabled(s, step) && (!s.overlap || AtMostOne(s.updaters.Keys))
    ensures Inv(Apply(s, step))
  {
    match step
    case Read(w, a, t) => ReadKeepsInv(s, w, a, t);
    case Commit(w) => CommitKeepsInv(s, w);
    case Abort(w) => assert forall v, a :: Holds(Apply(s, step), v, a) ==> Holds(s, v, a);
  }

  lemma {:induction false} RunInv(run: Run)
    requires IsRun(run) && (!run.state.overlap || AtMostOne(run.state.updaters.Keys))
    ensures Inv(run.state)
  {
    match run
    case Start(_) =>
    case Then(before, s) =>
      var step :| Enabled(before.state, step) && s == Apply(before.state, step);
      assert before.state.updaters.Keys == s.updaters.Keys;
      RunInv(before);
      StepKeepsInv(before.state, step);
  }

  // ---------- and more than one ----------

  lemma Extend(run: Run, step: Step) returns (longer: Run)
    requires IsRun(run) && Enabled(run.state, step)
    ensures IsRun(longer) && longer.state == Apply(run.state, step)
  {
    longer := Then(run, Apply(run.state, step));
    assert Next(run.state, longer.state);
  }

  /** Any two transactions that read an account's list before either writes it lose one of two tables. */
  lemma LostEntry(ws: set<nat>, v: nat, w: nat) returns (run: Run)
    requires v in ws && w in ws && v != w
    ensures IsRun(run) && run.state.updaters.Keys == ws && run.state.overlap
    ensures ("a", 1) in run.state.rows && run.state.index == map["a" := [0]]
  {
    run := Start(State(map[], {}, map u | u in ws :: Idle, true));
    run := Extend(run, Read(v, "a", 0));
    run := Extend(run, Read(w, "a", 1));
    run := Extend(run, Commit(v));
    assert run.state.index == map["a" := [0]];
    run := Extend(run, Commit(w));
  }

  /** So do two that read the same older list: the later write puts back its own copy, without the other's table. */
  lemma LostUpdate(ws: set<nat>, v: nat, w: nat) returns (run: Run)
    requires v in ws && w in ws && v != w
    ensures IsRun(run) && run.state.updaters.Keys == ws && run.state.overlap
    ensures run.state.rows == {("a", 0), ("a", 1), ("a", 2)} && run.state.index == map["a" := [0, 2]]
  {
    run := BothHaveRead(ws, v, w);
    OverwritesList("a", 1, [0], [0], [0, 1]);
    run := Extend(run, Commit(v));
    OverwritesList("a", 2, [0], [0, 1], [0, 2]);
    run := Extend(run, Commit(w));
  }

  lemma BothHaveRead(ws: set<nat>, v: nat, w: nat) returns (run: Run)
    requires v in ws && w in ws && v != w
    ensures IsRun(run) && run.state.updaters.Keys == ws && run.state.overlap
    ensures run.state.rows == {("a", 0)} && run.state.index == map["a" := [0]]
    ensures run.state.updaters[v] == Holding("a", 1, Some([0])) && run.state.updaters[w] == Holding("a", 2, Some([0]))
  {
    run := Start(State(map["a" := [0]], {("a", 0)}, map u | u in ws :: Idle, true));
    run := Extend(run, Read(v, "a", 1));
    run := Extend(run, Read(w, "a", 2));
  }

  lemma OverwritesList(account: string, t: nat, seen: seq<nat>, current: seq<nat>, longer: seq<nat>)
    requires t !in seen && longer == seen + [t]
    ensures Update(map[account := current], Holding(account, t, Some(seen))) == map[account := longer]
  {
  }

  /**
   The index stays sound in every run of these transactions, whatever accounts and tables they write, if
   and only if no two of them may hold the same account at once, or there is only one.
   */
  lemma IndexStaysSoundIff(ws: set<nat>, overlap: bool)
    ensures (forall run ::
               IsRun(run) && run.state.updaters.Keys == ws && run.state.overlap == overlap ==> Sound(run.state))
            <==> !overlap || |ws| <= 1
  {
    AtMostOneIff(ws);
    if !overlap || AtMostOne(ws) {
      forall run | IsRun(run) && run.state.updaters.Keys == ws && run.state.overlap == overlap
        ensures Sound(run.state)
      {
        RunInv(run);
      }
    } else {
      var v, w :| v in ws && w in ws && v != w;
      var run := LostEntry(ws, v, w);
      assert !Sound(run.state);
    }
  }
}
