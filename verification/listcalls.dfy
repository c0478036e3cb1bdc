/**
 What SynchList's Append and RemoveFront (threads/synchlist.cc) do for their callers, told from the actions of a run alone:
 which items go onto the list and come off it, and that every call does its work exactly once.
 */
module ListCalls {
  import opened Common
  import T = Threads
  import M = Monitor
  import opened SynchList

  function Init(run: seq<Action>): seq<Action>
    requires run != []
  {
    run[..|run| - 1]
  }

  function Last(run: seq<Action>): Action
    requires run != []
  {
    run[|run| - 1]
  }

  /** The thread that makes the last action of a run. */
  ghost function Actor(s: SynchList, run: seq<Action>): ThreadId
    requires run != []
  {
    After(s, Init(run)).m.k.current
  }

  lemma {:induction false} LastStep(s: SynchList, run: seq<Action>)
    requires run != []
    ensures After(s, run) == Next(After(s, Init(run)), Last(run))
    ensures Legal(s, run) ==> Legal(s, Init(run)) && Enabled(After(s, Init(run)), Last(run))
    decreases |run|
  {
    hide Next, Enabled;
    if |run| > 1 {
      assert Init(run)[1..] == Init(run[1..]);
      LastStep(Next(s, run[0]), run[1..]);
    }
  }

  // ---------------------------------------------------------------- what goes on and comes off

  /** The item of the thread's latest call of Append. */
  ghost function Asked(s: SynchList, run: seq<Action>, t: ThreadId): Option<Item>
    decreases |run|
  {
    if run == [] then None
    else if Last(run).StartAppend? && Actor(s, run) == t then Some(Last(run).item)
    else Asked(s, Init(run), t)
  }

  /** At each list->Append, the item that its caller was called with. */
  ghost function Given(s: SynchList, run: seq<Action>): seq<Item>
    decreases |run|
  {
    if run == [] then []
    else Given(s, Init(run)) + if Last(run) == AppendItem then Listed(Asked(s, Init(run), Actor(s, run))) else []
  }

  function Listed(item: Option<Item>): seq<Item> {
    match item case None => [] case Some(i) => [i]
  }

  function Front(list: seq<Item>): seq<Item> {
    if list == [] then [] else [list[0]]
  }

  /** At each list->RemoveFront, the front of the list. */
  ghost function Taken(s: SynchList, run: seq<Action>): seq<Item>
    decreases |run|
  {
    if run == [] then []
    else Taken(s, Init(run)) + if Last(run) == RemoveItem then Front(After(s, Init(run)).list) else []
  }

  lemma CallKept(s: SynchList, a: Action, t: ThreadId)
    requires Next(s, a).Job(t).Put?
    ensures if a.StartAppend? && s.m.k.current == t then Next(s, a).Job(t).item == a.item
            else s.Job(t).Put? && Next(s, a).Job(t).item == s.Job(t).item
  {
    hide M.Next;
  }

  lemma {:induction false} AskedIs(s: SynchList, run: seq<Action>, t: ThreadId)
    requires Fresh(s) && After(s, run).Job(t).Put?
    ensures Asked(s, run, t) == Some(After(s, run).Job(t).item)
    decreases |run|
  {
    if run != [] {
      hide Next, M.Fresh, After;
      LastStep(s, run);
      CallKept(After(s, Init(run)), Last(run), t);
      if !(Last(run).StartAppend? && Actor(s, run) == t) {
        AskedIs(s, Init(run), t);
      }
    }
  }

  lemma ListStep(s: SynchList, a: Action, item: Option<Item>)
    requires Enabled(s, a) && Asserts(s, a)
    requires a == AppendItem ==> item == Some(s.Job(s.m.k.current).item)
    ensures s.list + (if a == AppendItem then Listed(item) else []) == (if a == RemoveItem then Front(s.list) else []) + Next(s, a).list
    ensures a == RemoveItem ==> s.list != []
  {
    hide M.Next, M.Enabled, M.Asserts;
  }

  /** First in, first out: the items that the callers of Append brought are those that the callers of RemoveFront took, in
      order, followed by what is on the list; and every RemoveFront took one. */
  lemma {:induction false} FirstInFirstOut(s: SynchList, run: seq<Action>)
    requires Fresh(s) && Legal(s, run)
    ensures Given(s, run) == Taken(s, run) + After(s, run).list
    decreases |run|
  {
    if run != [] {
      hide Next, Enabled, Asserts, Fresh, Inv, After, Legal, Asked, Listed, Front;
      LastStep(s, run);
      var e := After(s, Init(run));
      FirstInFirstOut(s, Init(run));
      ListChange(s, run);
      var put := if Last(run) == AppendItem then Listed(Asked(s, Init(run), Actor(s, run))) else [];
      var got := if Last(run) == RemoveItem then Front(e.list) else [];
      Moved(Given(s, Init(run)), Taken(s, Init(run)), e.list, put, got, After(s, run).list);
    } else {
      assert After(s, run).list == [];
    }
  }

  lemma ListChange(s: SynchList, run: seq<Action>)
    requires Fresh(s) && Legal(s, run) && run != []
    ensures var e := After(s, Init(run));
      && e.list + (if Last(run) == AppendItem then Listed(Asked(s, Init(run), Actor(s, run))) else [])
         == (if Last(run) == RemoveItem then Front(e.list) else []) + After(s, run).list
      && (Last(run) == RemoveItem ==> e.list != [])
  {
    hide Next, Enabled, Asserts, Fresh, Inv, After, Legal, Asked, Listed, Front;
    LastStep(s, run);
    var e := After(s, Init(run));
    FreshReaches(s, Init(run));
    StepKeeps(e, Last(run));
    if Last(run) == AppendItem {
      PutsCall(e);
      AskedIs(s, Init(run), Actor(s, run));
    }
    ListStep(e, Last(run), Asked(s, Init(run), Actor(s, run)));
  }

  lemma Moved(given: seq<Item>, taken: seq<Item>, list: seq<Item>, put: seq<Item>, got: seq<Item>, list': seq<Item>)
    requires given == taken + list && list + put == got + list'
    ensures given + put == (taken + got) + list'
  {
    assert given + put == taken + (list + put);
    assert (taken + got) + list' == taken + (got + list');
  }

  lemma PutsCall(s: SynchList)
    requires Enabled(s, AppendItem)
    ensures s.Job(s.m.k.current).Put?
  {
    hide M.Enabled;
  }

  // ---------------------------------------------------------------- calls

  datatype Event = AppendCalled | Appended | RemoveCalled | Removed

  predicate Is(a: Action, e: Event) {
    match e
    case AppendCalled => a.StartAppend?
    case Appended => a == AppendItem
    case RemoveCalled => a == StartRemoveFront
    case Removed => a == RemoveItem
  }

  /** How often thread `t` did `e`. */
  ghost function Times(s: SynchList, run: seq<Action>, t: ThreadId, e: Event): nat
    decreases |run|
  {
    if run == [] then 0
    else Times(s, Init(run), t, e) + if Is(Last(run), e) && Actor(s, run) == t then 1 else 0
  }

  /** The calls of Append, and of RemoveFront, that have not come to the list yet. */
  function Appending(j: Job): nat {
    if j.Put? && j.put == ToAppend then 1 else 0
  }

  function Removing(j: Job): nat {
    if j.Get? && j.get != GetDone then 1 else 0
  }

  lemma CallStep(s: SynchList, a: Action, t: ThreadId)
    requires Inv(s) && Enabled(s, a)
    ensures var mine := s.m.k.current == t;
      && Appending(Next(s, a).Job(t)) + (if Is(a, Appended) && mine then 1 else 0)
         == Appending(s.Job(t)) + (if Is(a, AppendCalled) && mine then 1 else 0)
      && Removing(Next(s, a).Job(t)) + (if Is(a, Removed) && mine then 1 else 0)
         == Removing(s.Job(t)) + (if Is(a, RemoveCalled) && mine then 1 else 0)
  {
    hide M.Next, M.Inv, M.Asserts, CountInv, ItemsInv, T.Next, T.Enabled, T.Asserts, Asserts;
    assert JobInv(s, s.m.k.current);
  }

  /** Every call appends, or removes, exactly once before it returns. */
  lemma {:induction false} OncePerCall(s: SynchList, run: seq<Action>, t: ThreadId)
    requires Fresh(s) && Legal(s, run)
    ensures Times(s, run, t, AppendCalled) == Times(s, run, t, Appended) + Appending(After(s, run).Job(t))
    ensures Times(s, run, t, RemoveCalled) == Times(s, run, t, Removed) + Removing(After(s, run).Job(t))
    decreases |run|
  {
    hide Next, Enabled, Inv, Legal, Is, M.Fresh;
    if run == [] {
      assert After(s, run).Job(t) == NoJob;
    } else {
      hide After, Fresh, Appending, Removing;
      LastStep(s, run);
      FreshReaches(s, Init(run));
      CallStep(After(s, Init(run)), Last(run), t);
      OncePerCall(s, Init(run), t);
    }
  }
}
