// What holds of the concurrent in-memory store over whole runs, for every interleaving.
module ConcurrentRuns {
  import opened Types
  import opened Interleaving

  // The initial store and everything reachable from it satisfies the invariant, and along any
  // run keys only grow, url and owner never change and a deletion is never undone.
  lemma {:induction false} RunKeepsInv(s: State, steps: seq<Step>)
    requires Inv(s) && ValidRun(s, steps)
    ensures Inv(Run(s, steps))
    ensures Precedes(Now(s.history), Now(Run(s, steps).history))
    decreases |steps|
  {
    if steps == [] {
    } else {
      var t := Apply(s, steps[0]);
      StepKeepsInv(s, steps[0]);
      RunKeepsInv(t, steps[1..]);
      PrecedesTransitive(Now(s.history), Now(t.history), Now(Run(s, steps).history));
    }
  }

  // A deleted id answers "gone" and conflicts on store from then on.
  lemma GoneForever(s: State, steps: seq<Step>, id: string, url: string, userID: string)
    requires Inv(s) && ValidRun(s, steps)
    requires LoadEntry(Now(s.history), id) == Gone
    ensures var now := Now(Run(s, steps).history);
            LoadEntry(now, id) == Gone && StoreEntry(now, id, url, userID) == (now, Conflict)
  {
    RunKeepsInv(s, steps);
  }

  // ---- Calls keep their arguments ----

  predicate SameRequest(a: Call, b: Call) {
    && a.userID == b.userID && a.begun == b.begun
    && a.role.Deleting? == b.role.Deleting?
    && (a.role.Deleting? ==> a.role.ids == b.role.ids)
  }

  lemma {:induction false} RequestsKept(s: State, steps: seq<Step>, c: nat)
    requires |s.history| > 0 && ValidRun(s, steps) && c in s.calls
    ensures c in Run(s, steps).calls && SameRequest(s.calls[c], Run(s, steps).calls[c])
    decreases |steps|
  {
    if steps == [] {
    } else {
      RequestsKept(Apply(s, steps[0]), steps[1..], c);
    }
  }

  // ---- StoreURL and LoadURL ----

  // A store adds a live entry with the given url and owner under a new id, and nothing else; under a
  // known id it changes nothing.
  lemma StoreStep(s: State, id: string, url: string, userID: string)
    requires |s.history| > 0
    ensures var now := Now(s.history);
            Now(Apply(s, Store(id, url, userID)).history) ==
            if id in now then now else now[id := Entry(url, userID, false)]
  {
  }

  // Whatever runs after a store, its entry is there with its url and owner, or what was there before
  // has kept its own; LoadURL answers that url, or gone.
  lemma StoreTakesEffect(s: State, id: string, url: string, userID: string, steps: seq<Step>)
    requires Inv(s) && ValidRun(s, [Store(id, url, userID)] + steps)
    ensures var before, now := Now(s.history), Now(Run(s, [Store(id, url, userID)] + steps).history);
            && id in now
            && MayBecome(if id in before then before[id] else Entry(url, userID, false), now[id])
            && LoadEntry(now, id) == if now[id].deleted then Gone
                                     else Found(if id in before then before[id].url else url)
  {
    var step := Store(id, url, userID);
    assert ([step] + steps)[1..] == steps;
    StoreStep(s, id, url, userID);
    StepKeepsInv(s, step);
    RunKeepsInv(Apply(s, step), steps);
  }

  // The step that stored an entry.
  ghost predicate StoredBy(steps: seq<Step>, i: int, id: string, e: Entry) {
    0 <= i < |steps| && steps[i] == Store(id, e.url, e.userID)
  }

  lemma StepAddsStored(s: State, step: Step, k: string)
    requires Inv(s) && Enabled(s, step) && k in Now(Apply(s, step).history) && k !in Now(s.history)
    ensures var e := Now(Apply(s, step).history)[k]; step == Store(k, e.url, e.userID) && !e.deleted
  {
    NowAfter(s, step);
    if step.Consume? && Writes(s.calls[step.c]) {
      GoodCopyIsPast(s.history, s.calls[step.c], s.calls[step.c].consumer.item);
    }
  }

  // Every entry was there at the start or was stored in the run, with its url for its owner.
  lemma {:induction false} OnlyStoresAdd(s: State, steps: seq<Step>, k: string)
    requires Inv(s) && ValidRun(s, steps) && k in Now(Run(s, steps).history)
    ensures var e := Now(Run(s, steps).history)[k];
            || (k in Now(s.history) && MayBecome(Now(s.history)[k], e))
            || exists i :: StoredBy(steps, i, k, e)
    decreases |steps|
  {
    if steps == [] {
    } else {
      var t := Apply(s, steps[0]);
      var e := Now(Run(s, steps).history)[k];
      StepKeepsInv(s, steps[0]);
      OnlyStoresAdd(t, steps[1..], k);
      if k in Now(t.history) && MayBecome(Now(t.history)[k], e) {
        if k !in Now(s.history) {
          StepAddsStored(s, steps[0], k);
          assert StoredBy(steps, 0, k, e);
        }
      } else {
        var i :| StoredBy(steps[1..], i, k, e);
        assert StoredBy(steps, i + 1, k, e);
      }
    }
  }

  // ---- DeleteURLs ----

  // However it interleaves with other calls, when DeleteURLs(userID, ids) has returned, every
  // listed entry of that user that existed when it was called is deleted, url and owner intact.
  lemma DeleteTakesEffect(s: State, c: nat, userID: string, ids: seq<string>, steps: seq<Step>, id: string)
    requires Inv(s) && ValidRun(s, [BeginDelete(c, userID, ids)] + steps)
    requires id in Now(s.history) && Now(s.history)[id].userID == userID && id in ids
    ensures var r := Run(s, [BeginDelete(c, userID, ids)] + steps);
            && c in r.calls
            && (r.calls[c].consumer.Returned? ==>
                  id in Now(r.history) && Now(r.history)[id] == Now(s.history)[id].(deleted := true))
  {
    var all := [BeginDelete(c, userID, ids)] + steps;
    var t := Apply(s, all[0]);
    assert all[1..] == steps;
    var r := Run(s, all);
    StepKeepsInv(s, all[0]);
    RunKeepsInv(t, steps);
    RequestsKept(t, steps, c);
    if r.calls[c].consumer.Returned? {
      ReturnedDeleted(r.history, r.calls[c], id);
    }
  }

  lemma ReturnedDeleted(h: seq<Data>, call: Call, id: string)
    requires Chain(h) && CallInv(h, call) && call.role.Deleting? && call.consumer.Returned?
    requires id in h[call.begun] && h[call.begun][id].userID == call.userID && id in call.role.ids
    ensures id in Now(h) && Now(h)[id] == h[call.begun][id].(deleted := true)
  {
    assert Precedes(h[call.begun], h[call.from]);
    assert id in call.visited;
    assert Precedes(h[call.begun], h[|h| - 1]);
  }

  // userID asked for the deletion of id in some DeleteURLs call.
  ghost predicate Requested(s: State, userID: string, id: string) {
    exists c :: c in s.calls && s.calls[c].role.Deleting? && s.calls[c].userID == userID && id in s.calls[c].role.ids
  }

  // Whatever is deleted was so from the start, or its owner asked for it by id.
  ghost predicate Justified(s: State)
    requires |s.history| > 0
  {
    forall k :: k in Now(s.history) && Now(s.history)[k].deleted ==>
      || (k in s.history[0] && s.history[0][k].deleted)
      || Requested(s, Now(s.history)[k].userID, k)
  }

  lemma RequestedKept(s: State, step: Step, userID: string, id: string)
    requires |s.history| > 0 && Enabled(s, step) && Requested(s, userID, id)
    ensures Requested(Apply(s, step), userID, id)
  {
    var c :| c in s.calls && s.calls[c].role.Deleting? && s.calls[c].userID == userID && id in s.calls[c].role.ids;
    var t := Apply(s, step);
    assert c in t.calls && SameRequest(s.calls[c], t.calls[c]);
  }

  lemma WriteIsRequested(s: State, c: nat)
    requires Inv(s) && c in s.calls && Writes(s.calls[c])
    ensures Requested(s, s.calls[c].consumer.item.data.userID, s.calls[c].consumer.item.id)
  {
    var call := s.calls[c];
    var id := call.consumer.item.id;
    assert GoodCopy(s.history, call, call.consumer.item);
    assert multiset(call.role.rest)[id] > 0;
    assert id in multiset(call.role.ids);
  }

  // What a step newly deletes was requested.
  lemma NewlyDeleted(s: State, step: Step, k: string)
    requires Inv(s) && Enabled(s, step) && k in NextNow(s, step) && NextNow(s, step)[k].deleted
    ensures var now := Now(s.history);
            || (k in now && now[k] == NextNow(s, step)[k])
            || Requested(s, NextNow(s, step)[k].userID, k)
  {
    if step.Consume? && Writes(s.calls[step.c]) {
      WriteIsRequested(s, step.c);
    }
  }

  lemma StepKeepsJustified(s: State, step: Step)
    requires Inv(s) && Justified(s) && Enabled(s, step)
    ensures Justified(Apply(s, step))
  {
    var next := NextNow(s, step);
    NowAfter(s, step);
    forall k | k in next && next[k].deleted
      ensures (k in s.history[0] && s.history[0][k].deleted) || Requested(Apply(s, step), next[k].userID, k)
    {
      NewlyDeleted(s, step, k);
      if Requested(s, next[k].userID, k) { RequestedKept(s, step, next[k].userID, k); }
    }
  }

  lemma {:induction false} RunKeepsJustified(s: State, steps: seq<Step>)
    requires Inv(s) && Justified(s) && ValidRun(s, steps)
    ensures Justified(Run(s, steps))
    decreases |steps|
  {
    if steps == [] {
    } else {
      StepKeepsInv(s, steps[0]);
      StepKeepsJustified(s, steps[0]);
      RunKeepsJustified(Apply(s, steps[0]), steps[1..]);
    }
  }

  // An entry becomes deleted only by a request from its owner naming its id.
  lemma OnlyOwnersDelete(data: Data, steps: seq<Step>, id: string)
    requires ValidRun(Initial(data), steps)
    ensures var r := Run(Initial(data), steps);
            id in Now(r.history) && Now(r.history)[id].deleted ==>
              (id in data && data[id].deleted) || Requested(r, Now(r.history)[id].userID, id)
  {
    RunKeepsJustified(Initial(data), steps);
    RunKeepsInv(Initial(data), steps);
  }

  predicate NoStores(steps: seq<Step>) {
    forall i :: 0 <= i < |steps| ==> !steps[i].Store?
  }

  // Only a store brings a new key.
  lemma KeysAfter(s: State, step: Step)
    requires Inv(s) && Enabled(s, step)
    ensures Now(Apply(s, step).history).Keys ==
            Now(s.history).Keys + (if step.Store? then {step.id} else {})
  {
    NowAfter(s, step);
    if step.Consume? && Writes(s.calls[step.c]) {
      GoodCopyIsPast(s.history, s.calls[step.c], s.calls[step.c].consumer.item);
    }
  }

  lemma {:induction false} KeysKept(s: State, steps: seq<Step>)
    requires Inv(s) && ValidRun(s, steps) && NoStores(steps)
    ensures Now(Run(s, steps).history).Keys == Now(s.history).Keys
    decreases |steps|
  {
    if steps == [] {
    } else {
      StepKeepsInv(s, steps[0]);
      KeysAfter(s, steps[0]);
      KeysKept(Apply(s, steps[0]), steps[1..]);
    }
  }

  ghost predicate AllReturned(s: State) {
    forall c :: c in s.calls ==> s.calls[c].consumer.Returned?
  }

  lemma RequestFulfilled(h: seq<Data>, call: Call, k: string)
    requires Chain(h) && CallInv(h, call) && call.role.Deleting? && call.consumer.Returned?
    requires k in h[0] && h[0][k].userID == call.userID && k in call.role.ids
    ensures k in Now(h) && Now(h)[k].deleted
  {
    assert Precedes(h[0], h[call.from]) && Precedes(h[0], h[|h| - 1]);
    assert k in call.visited;
  }

  lemma RequestsFulfilled(r: State, k: string)
    requires Inv(r) && AllReturned(r) && k in r.history[0] && Requested(r, r.history[0][k].userID, k)
    ensures k in Now(r.history) && Now(r.history)[k].deleted
  {
    var userID := r.history[0][k].userID;
    var c :| c in r.calls && r.calls[c].role.Deleting? && r.calls[c].userID == userID && k in r.calls[c].role.ids;
    RequestFulfilled(r.history, r.calls[c], k);
  }

  // With no store among them, any interleaving of calls that have all returned leaves the same
  // contents: deleted are exactly the entries deleted before and those requested by their owner.
  lemma DeletesConfluent(data: Data, steps: seq<Step>)
    requires ValidRun(Initial(data), steps) && NoStores(steps)
    requires AllReturned(Run(Initial(data), steps))
    ensures var r := Run(Initial(data), steps);
            Now(r.history) == map k | k in data ::
              data[k].(deleted := data[k].deleted || Requested(r, data[k].userID, k))
  {
    var s := Initial(data);
    var r := Run(s, steps);
    RunKeepsInv(s, steps);
    KeysKept(s, steps);
    forall k | k in data
      ensures Now(r.history)[k] == data[k].(deleted := data[k].deleted || Requested(r, data[k].userID, k))
    {
      OnlyOwnersDelete(data, steps, k);
      if Requested(r, data[k].userID, k) { RequestsFulfilled(r, k); }
    }
  }

  // Steps of call c after its beginning, and loads.
  predicate Alone(steps: seq<Step>, c: nat) {
    forall i :: 0 <= i < |steps| ==>
      steps[i].Load? || (Owner(steps[i]) == Some(c) && !steps[i].BeginDelete? && !steps[i].BeginList?)
  }

  lemma AloneCalls(data: Data, begin: Step, steps: seq<Step>)
    requires begin.BeginDelete? && ValidRun(Initial(data), [begin] + steps) && Alone(steps, begin.c)
    ensures var r := Run(Initial(data), [begin] + steps);
            && r.calls.Keys == {begin.c} && NoStores([begin] + steps)
            && r.calls[begin.c].role.Deleting?
            && r.calls[begin.c].userID == begin.userID && r.calls[begin.c].role.ids == begin.ids
  {
    assert ([begin] + steps)[1..] == steps;
    RequestsKept(Apply(Initial(data), begin), steps, begin.c);
    CallsKept(Apply(Initial(data), begin), steps);
  }

  // The same for one call alone: DeleteURLs is the immediate deletion of the user's listed entries.
  lemma LoneDelete(data: Data, c: nat, userID: string, ids: seq<string>, steps: seq<Step>)
    requires ValidRun(Initial(data), [BeginDelete(c, userID, ids)] + steps) && Alone(steps, c)
    ensures var r := Run(Initial(data), [BeginDelete(c, userID, ids)] + steps);
            && c in r.calls
            && (r.calls[c].consumer.Returned? ==> Now(r.history) == MarkDeleted(data, userID, ids))
  {
    var all := [BeginDelete(c, userID, ids)] + steps;
    AloneCalls(data, all[0], steps);
    if Run(Initial(data), all).calls[c].consumer.Returned? {
      DeletesConfluent(data, all);
      OnlyRequest(Run(Initial(data), all), c, data);
    }
  }

  lemma OnlyRequest(r: State, c: nat, data: Data)
    requires r.calls.Keys == {c} && r.calls[c].role.Deleting?
    ensures forall k :: k in data ==>
              (Requested(r, data[k].userID, k) <==> data[k].userID == r.calls[c].userID && k in r.calls[c].role.ids)
  {
    assert c in r.calls;
  }

  lemma {:induction false} CallsKept(s: State, steps: seq<Step>)
    requires |s.history| > 0 && ValidRun(s, steps)
    requires forall i :: 0 <= i < |steps| ==> !steps[i].BeginDelete? && !steps[i].BeginList?
    ensures Run(s, steps).calls.Keys == s.calls.Keys
    decreases |steps|
  {
    if steps == [] {
    } else {
      CallsKept(Apply(s, steps[0]), steps[1..]);
    }
  }

  // ---- LoadUrlsByUser ----

  lemma ListBegun(s: State, c: nat, userID: string, steps: seq<Step>)
    requires Inv(s) && ValidRun(s, [BeginList(c, userID)] + steps)
    ensures var r := Run(s, [BeginList(c, userID)] + steps);
            && Inv(r) && c in r.calls && s.history <= r.history
            && r.calls[c].role.Listing? && r.calls[c].userID == userID && r.calls[c].begun == |s.history| - 1
  {
    var all := [BeginList(c, userID)] + steps;
    assert all[1..] == steps;
    StepKeepsInv(s, all[0]);
    RunKeepsInv(Apply(s, all[0]), steps);
    RequestsKept(Apply(s, all[0]), steps, c);
  }

  // When LoadUrlsByUser(userID) has returned, every entry of the user that existed when it was
  // called and is not deleted by now is in the answer, nothing is in it twice, and everything in
  // it was a live entry of that user at some moment of the call.
  lemma ListIsComplete(s: State, c: nat, userID: string, steps: seq<Step>)
    requires Inv(s) && ValidRun(s, [BeginList(c, userID)] + steps)
    ensures var r := Run(s, [BeginList(c, userID)] + steps);
            && c in r.calls && r.calls[c].role.Listing?
            && (r.calls[c].consumer.Returned? ==>
                  CompleteAnswer(r.history, |s.history| - 1, userID, r.calls[c].role.out))
    ensures Run(s, [BeginList(c, userID)] + steps).history[|s.history| - 1] == Now(s.history)
  {
    ListBegun(s, c, userID, steps);
    var r := Run(s, [BeginList(c, userID)] + steps);
    if r.calls[c].consumer.Returned? {
      AnswerComplete(r.history, r.calls[c]);
    }
  }

  lemma AnswerComplete(h: seq<Data>, call: Call)
    requires Chain(h) && CallInv(h, call) && call.role.Listing? && call.consumer.Returned?
    ensures CompleteAnswer(h, call.begun, call.userID, call.role.out)
  {
    var out := call.role.out;
    forall k | k in h[call.begun] && Live(Now(h), call.userID, k) ensures Listed(out, k) {
      assert Precedes(h[call.begun], h[call.from]);
      assert k in call.visited;
    }
    forall i | 0 <= i < |out| ensures WasLive(h, call.begun, call.userID, out[i]) {
      assert GoodCopy(h, call, out[i]);
    }
  }

  predicate Live(data: Data, userID: string, id: string) {
    id in data && IsLive(data[id], userID)
  }

  ghost predicate CompleteAnswer(h: seq<Data>, begun: nat, userID: string, out: seq<Item>)
    requires begun < |h|
  {
    && (forall k :: k in h[begun] && Live(Now(h), userID, k) ==> Listed(out, k))
    && (forall i, j :: 0 <= i < j < |out| ==> out[i].id != out[j].id)
    && (forall i :: 0 <= i < |out| ==> WasLive(h, begun, userID, out[i]))
  }

  ghost predicate WasLive(h: seq<Data>, since: nat, userID: string, item: Item) {
    IsLive(item.data, userID) &&
    exists i :: since <= i < |h| && item.id in h[i] && h[i][item.id] == item.data
  }

  // ---- Progress ----

  // The call a step belongs to.
  function Owner(step: Step): Option<nat> {
    if step.Store? || step.Load? then None else Some(step.c)
  }

  // Neither goroutine of a call can get stuck, whatever other calls do: until the call has
  // returned, one of its own steps is enabled, and its context is not cancelled.
  lemma NoDeadlock(s: State, c: nat)
    requires Inv(s) && c in s.calls && !s.calls[c].consumer.Returned?
    ensures !s.calls[c].cancelled
    ensures exists step :: Owner(step) == Some(c) && !step.BeginDelete? && !step.BeginList? && Enabled(s, step)
  {
    var call := s.calls[c];
    var step :=
      if call.consumer.Holding? then Consume(c)
      else if call.producer.Idle? then StartRange(c)
      else if call.producer.Sending? then HandOff(c)
      else if call.producer.Closed? then Return(c)
      else if k :| k in Now(s.history) && k !in call.visited then Visit(c, k, |s.history| - 1)
      else EndRange(c);
    if step.EndRange? {
      forall k | PresentThroughout(s.history, call.from, k) ensures k in call.visited {
        assert k in s.history[|s.history| - 1];
      }
    }
    assert Owner(step) == Some(c) && Enabled(s, step);
  }

  function Phase(call: Call): nat {
    (match call.producer case Idle => 2 case Ranging => 1 case Sending(_) => 3 case Closed => 0)
    + (match call.consumer case Receiving => 1 case Holding(_) => 2 case Returned => 0)
  }

  function Unvisited(data: Data, call: Call): nat {
    |data.Keys - call.visited|
  }

  function Measure(s: State, c: nat): nat
    requires |s.history| > 0 && c in s.calls
  {
    3 * Unvisited(Now(s.history), s.calls[c]) + Phase(s.calls[c])
  }

  lemma OneLess(keys: set<string>, visited: set<string>, id: string)
    requires id in keys && id !in visited
    ensures |keys - visited| == |keys - (visited + {id})| + 1
  {
    assert keys - visited == (keys - (visited + {id})) + {id};
  }

  lemma VisitPhase(call: Call, id: string, e: Entry)
    requires call.producer.Ranging?
    ensures AfterVisit(call, id, e).visited == call.visited + {id}
    ensures Phase(AfterVisit(call, id, e)) <= Phase(call) + 2
  {
  }

  lemma VisitDecreases(s: State, c: nat, id: string, at: nat)
    requires Inv(s) && Enabled(s, Visit(c, id, at))
    ensures Measure(Apply(s, Visit(c, id, at)), c) < Measure(s, c)
  {
    var h := s.history;
    assert Precedes(h[at], h[|h| - 1]);
    VisitPhase(s.calls[c], id, h[at][id]);
    OneLess(Now(h).Keys, s.calls[c].visited, id);
  }

  lemma PhaseDecreases(s: State, step: Step)
    requires |s.history| > 0 && Enabled(s, step)
    requires !step.Visit? && Owner(step).Some? && step.c in s.calls
    ensures var after := Apply(s, step).calls[step.c];
            after.visited == s.calls[step.c].visited && Phase(after) < Phase(s.calls[step.c])
  {
  }

  lemma OwnStepDecreases(s: State, step: Step, c: nat)
    requires Inv(s) && Enabled(s, step) && c in s.calls && Owner(step) == Some(c)
    ensures c in Apply(s, step).calls && Measure(Apply(s, step), c) < Measure(s, c)
  {
    if step.Visit? {
      VisitDecreases(s, c, step.id, step.at);
    } else {
      assert Now(Apply(s, step).history).Keys == Now(s.history).Keys by { KeysAfter(s, step); }
      PhaseDecreases(s, step);
    }
  }

  lemma OtherCallKept(s: State, step: Step, c: nat)
    requires |s.history| > 0 && Enabled(s, step) && c in s.calls && Owner(step) != Some(c)
    ensures c in Apply(s, step).calls && Apply(s, step).calls[c] == s.calls[c]
  {
  }

  lemma OneKeyMore(keys: set<string>, visited: set<string>, id: string)
    ensures |keys + {id} - visited| <= |keys - visited| + 1
  {
    SubsetSize(keys + {id} - visited, (keys - visited) + {id});
  }

  lemma OtherStepAdds(s: State, step: Step, c: nat)
    requires Inv(s) && Enabled(s, step) && c in s.calls && Owner(step) != Some(c)
    ensures c in Apply(s, step).calls
    ensures Measure(Apply(s, step), c) <= Measure(s, c) + if step.Store? then 3 else 0
  {
    OtherCallKept(s, step, c);
    KeysAfter(s, step);
    if step.Store? { OneKeyMore(Now(s.history).Keys, s.calls[c].visited, step.id); }
  }

  lemma SubsetSize(a: set<string>, b: set<string>)
    requires a <= b
    ensures |a| <= |b|
  {
    if a != {} {
      var x :| x in a;
      SubsetSize(a - {x}, b - {x});
    }
  }

  function OwnSteps(steps: seq<Step>, c: nat): nat {
    if steps == [] then 0 else (if Owner(steps[0]) == Some(c) then 1 else 0) + OwnSteps(steps[1..], c)
  }

  function Stores(steps: seq<Step>): nat {
    if steps == [] then 0 else (if steps[0].Store? then 1 else 0) + Stores(steps[1..])
  }

  lemma {:induction false} StepsBounded(s: State, steps: seq<Step>, c: nat)
    requires Inv(s) && ValidRun(s, steps) && c in s.calls
    ensures c in Run(s, steps).calls
    ensures OwnSteps(steps, c) + Measure(Run(s, steps), c) <= Measure(s, c) + 3 * Stores(steps)
    decreases |steps|
  {
    if steps == [] {
    } else {
      StepKeepsInv(s, steps[0]);
      if Owner(steps[0]) == Some(c) { OwnStepDecreases(s, steps[0], c); } else { OtherStepAdds(s, steps[0], c); }
      StepsBounded(Apply(s, steps[0]), steps[1..], c);
    }
  }

  lemma BeginMeasure(s: State, begin: Step)
    requires |s.history| > 0 && (begin.BeginDelete? || begin.BeginList?) && Enabled(s, begin)
    ensures begin.c in Apply(s, begin).calls && Measure(Apply(s, begin), begin.c) == 3 * |Now(s.history)| + 3
  {
    assert Now(s.history).Keys - {} == Now(s.history).Keys;
  }

  // A call takes at most three steps for each key there was when it began, three for each store
  // made while it runs, and three more: with NoDeadlock, every call that gets its turns returns.
  lemma CallsTerminate(s: State, begin: Step, steps: seq<Step>)
    requires Inv(s) && (begin.BeginDelete? || begin.BeginList?) && ValidRun(s, [begin] + steps)
    ensures OwnSteps(steps, begin.c) <= 3 * |Now(s.history)| + 3 * Stores(steps) + 3
  {
    assert ([begin] + steps)[1..] == steps;
    StepKeepsInv(s, begin);
    BeginMeasure(s, begin);
    StepsBounded(Apply(s, begin), steps, begin.c);
  }

  // One step of its own brings a call nearer to its return.
  lemma OwnStep(s: State, c: nat) returns (step: Step)
    requires Inv(s) && c in s.calls && !s.calls[c].consumer.Returned?
    ensures Alone([step], c) && Enabled(s, step) && Inv(Apply(s, step))
    ensures c in Apply(s, step).calls && Measure(Apply(s, step), c) < Measure(s, c)
  {
    NoDeadlock(s, c);
    step :| Owner(step) == Some(c) && !step.BeginDelete? && !step.BeginList? && Enabled(s, step);
    StepKeepsInv(s, step);
    OwnStepDecreases(s, step, c);
  }

  lemma OneMoreStep(s: State, step: Step, rest: seq<Step>, c: nat)
    requires |s.history| > 0 && Enabled(s, step) && ValidRun(Apply(s, step), rest)
    requires Alone([step], c) && Alone(rest, c)
    ensures ValidRun(s, [step] + rest) && Alone([step] + rest, c)
    ensures Run(s, [step] + rest) == Run(Apply(s, step), rest)
  {
    assert ([step] + rest)[1..] == rest && [step][0] == step;
  }

  // A call needs nobody else to finish: from any reachable state its own steps lead to its return.
  lemma {:induction false} CanFinishAlone(s: State, c: nat) returns (steps: seq<Step>)
    requires Inv(s) && c in s.calls
    ensures ValidRun(s, steps) && Alone(steps, c)
    ensures c in Run(s, steps).calls && Run(s, steps).calls[c].consumer.Returned?
    decreases Measure(s, c)
  {
    if s.calls[c].consumer.Returned? {
      steps := [];
    } else {
      var step := OwnStep(s, c);
      var rest := CanFinishAlone(Apply(s, step), c);
      OneMoreStep(s, step, rest, c);
      steps := [step] + rest;
    }
  }
}
