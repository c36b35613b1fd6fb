// internal/storage/inmemory/inmemory.go as a concurrent system. Every operation on the shared
// sync.Map and every hand-off over the unbuffered channel is one atomic step; any number of
// DeleteURLs, LoadUrlsByUser, StoreURL and LoadURL calls may interleave in any order.
module Interleaving {
  import opened Types

  // What the producer sends over the channel: a key and the copy of its value that Range saw.
  datatype Item = Item(id: string, data: Entry)

  // The goroutine of findURLsByUser: not started, inside Range, blocked on the send, channel closed.
  datatype Producer = Idle | Ranging | Sending(item: Item) | Closed

  // The loop over the channel: waiting, processing one item, call returned.
  datatype Consumer = Receiving | Holding(item: Item) | Returned

  // DeleteURLs(userID, ids), with what is left of ids, or LoadUrlsByUser with what was added so far.
  datatype Role = Deleting(ids: seq<string>, rest: seq<string>) | Listing(out: seq<Item>)

  // begun and from are positions in the history: the start of the call and of its Range.
  datatype Call = Call(userID: string, role: Role, begun: nat, from: nat, visited: set<string>,
                       producer: Producer, consumer: Consumer, cancelled: bool)

  // All contents the shared map has had, the last being the current one, and all calls ever made.
  datatype State = State(history: seq<Data>, calls: map<nat, Call>)

  datatype Step =
    | Store(id: string, url: string, userID: string)
    | Load(id: string)
    | BeginDelete(c: nat, userID: string, ids: seq<string>)
    | BeginList(c: nat, userID: string)
    | StartRange(c: nat)
    | Visit(c: nat, id: string, at: nat)
    | EndRange(c: nat)
    | HandOff(c: nat)
    | Consume(c: nat)
    | Return(c: nat)

  function Now(h: seq<Data>): Data
    requires |h| > 0
  {
    h[|h| - 1]
  }

  // sync.Map.Range visits no key twice, may see any value the key had since Range began, and
  // ends only when every key present all that time has been visited.
  ghost predicate Enabled(s: State, step: Step)
    requires |s.history| > 0
  {
    match step
    case Store(_, _, _) => true
    case Load(_) => true
    case BeginDelete(c, _, _) => c !in s.calls
    case BeginList(c, _) => c !in s.calls
    case StartRange(c) => c in s.calls && s.calls[c].producer.Idle?
    case Visit(c, id, at) =>
      && c in s.calls && s.calls[c].producer.Ranging? && id !in s.calls[c].visited
      && s.calls[c].from <= at < |s.history| && id in s.history[at]
    case EndRange(c) =>
      && c in s.calls && s.calls[c].producer.Ranging?
      && forall k :: PresentThroughout(s.history, s.calls[c].from, k) ==> k in s.calls[c].visited
    case HandOff(c) =>
      c in s.calls && s.calls[c].producer.Sending? && s.calls[c].consumer.Receiving?
    case Consume(c) => c in s.calls && s.calls[c].consumer.Holding?
    case Return(c) =>
      c in s.calls && s.calls[c].producer.Closed? && s.calls[c].consumer.Receiving?
  }

  ghost predicate PresentThroughout(h: seq<Data>, from: nat, k: string) {
    forall i :: from <= i < |h| ==> k in h[i]
  }

  // The callback of Range: live entries of the user are sent, unless the context is cancelled.
  function AfterVisit(call: Call, id: string, e: Entry): Call {
    var c := call.(visited := call.visited + {id});
    if !IsLive(e, call.userID) then c
    else if call.cancelled then c.(producer := Closed)
    else c.(producer := Sending(Item(id, e)))
  }

  // One turn of the consumer: DeleteURLs writes back the copy it received, marked deleted, and
  // takes the first matching id out of its slice; LoadUrlsByUser adds the item to its answer.
  function AfterConsume(call: Call): Call
    requires call.consumer.Holding?
  {
    var item := call.consumer.item;
    match call.role
    case Deleting(ids, rest) => call.(consumer := Receiving, role := Deleting(ids, RemoveFirst(rest, item.id)))
    case Listing(out) => call.(consumer := Receiving, role := Listing(out + [item]))
  }

  predicate Writes(call: Call) {
    call.consumer.Holding? && call.role.Deleting? && call.consumer.item.id in call.role.rest
  }

  function Written(data: Data, item: Item): Data {
    data[item.id := Entry(item.data.url, item.data.userID, true)]
  }

  ghost function Apply(s: State, step: Step): (t: State)
    requires |s.history| > 0 && Enabled(s, step)
    ensures s.history <= t.history
  {
    var h := s.history;
    match step
    case Store(id, url, user) =>
      if id in Now(h) then s else s.(history := h + [StoreEntry(Now(h), id, url, user).0])
    case Load(_) => s
    case BeginDelete(c, user, ids) =>
      s.(calls := s.calls[c := Call(user, Deleting(ids, ids), |h| - 1, 0, {}, Idle, Receiving, false)])
    case BeginList(c, user) =>
      s.(calls := s.calls[c := Call(user, Listing([]), |h| - 1, 0, {}, Idle, Receiving, false)])
    case StartRange(c) =>
      s.(calls := s.calls[c := s.calls[c].(producer := Ranging, from := |h| - 1)])
    case Visit(c, id, at) =>
      s.(calls := s.calls[c := AfterVisit(s.calls[c], id, h[at][id])])
    case EndRange(c) =>
      s.(calls := s.calls[c := s.calls[c].(producer := Closed)])
    case HandOff(c) =>
      s.(calls := s.calls[c := s.calls[c].(producer := Ranging, consumer := Holding(s.calls[c].producer.item))])
    case Consume(c) =>
      State(if Writes(s.calls[c]) then h + [Written(Now(h), s.calls[c].consumer.item)] else h,
            s.calls[c := AfterConsume(s.calls[c])])
    case Return(c) =>
      // g.Wait returns and cancels the errgroup's context; LoadUrlsByUser has a background context
      s.(calls := s.calls[c := s.calls[c].(consumer := Returned, cancelled := s.calls[c].role.Deleting?)])
  }

  ghost predicate ValidRun(s: State, steps: seq<Step>)
    requires |s.history| > 0
    decreases |steps|
  {
    steps == [] || (Enabled(s, steps[0]) && ValidRun(Apply(s, steps[0]), steps[1..]))
  }

  ghost function Run(s: State, steps: seq<Step>): (r: State)
    requires |s.history| > 0 && ValidRun(s, steps)
    ensures s.history <= r.history
    decreases |steps|
  {
    if steps == [] then s else Run(Apply(s, steps[0]), steps[1..])
  }

  // A store that holds data and serves no call yet.
  function Initial(data: Data): State {
    State([data], map[])
  }

  // ---- The invariant of all interleavings ----

  ghost predicate Chain(h: seq<Data>) {
    |h| > 0 && forall i, j :: 0 <= i <= j < |h| ==> Precedes(h[i], h[j])
  }

  predicate InFlight(call: Call, id: string) {
    || (call.producer.Sending? && call.producer.item.id == id)
    || (call.consumer.Holding? && call.consumer.item.id == id)
  }

  // A copy in the channel or in the answer: a live value the key had while Range was running.
  ghost predicate GoodCopy(h: seq<Data>, call: Call, item: Item) {
    && item.id in call.visited
    && IsLive(item.data, call.userID)
    && exists i :: call.from <= i < |h| && item.id in h[i] && h[i][item.id] == item.data
  }

  ghost predicate ControlInv(h: seq<Data>, call: Call) {
    && call.begun < |h|
    && (!call.producer.Idle? ==> call.begun <= call.from < |h|)
    && (call.producer.Idle? ==> call.visited == {} && call.consumer.Receiving?)
    && (call.producer.Idle? && call.role.Listing? ==> call.role.out == [])
    && (call.cancelled ==> call.consumer.Returned?)
    && (call.consumer.Returned? ==> call.producer.Closed?)
    && (call.producer.Sending? && call.consumer.Holding? ==> call.producer.item.id != call.consumer.item.id)
  }

  ghost predicate CopiesInv(h: seq<Data>, call: Call)
    requires |h| > 0
  {
    && (forall k :: k in call.visited ==> k in Now(h))
    && (call.producer.Sending? ==> GoodCopy(h, call, call.producer.item))
    && (call.consumer.Holding? ==> GoodCopy(h, call, call.consumer.item))
    && (call.producer.Closed? && call.from < |h| ==> forall k :: k in h[call.from] ==> k in call.visited)
  }

  // The caller's ids lose only ids whose key has come by, and what came by is dealt with.
  ghost predicate DeleteInv(h: seq<Data>, call: Call)
    requires |h| > 0 && call.role.Deleting? && forall k :: k in call.visited ==> k in Now(h)
  {
    var ids, rest := call.role.ids, call.role.rest;
    && multiset(rest) <= multiset(ids)
    && (forall k :: k !in call.visited || InFlight(call, k) ==> multiset(rest)[k] == multiset(ids)[k])
    && (forall k :: k in call.visited && Now(h)[k].userID == call.userID && k in ids ==>
          InFlight(call, k) || Now(h)[k].deleted)
  }

  predicate Listed(out: seq<Item>, id: string) {
    exists i :: 0 <= i < |out| && out[i].id == id
  }

  ghost predicate ListInv(h: seq<Data>, call: Call)
    requires |h| > 0 && call.role.Listing? && forall k :: k in call.visited ==> k in Now(h)
  {
    var out := call.role.out;
    && (forall i, j :: 0 <= i < j < |out| ==> out[i].id != out[j].id)
    && (forall i :: 0 <= i < |out| ==> GoodCopy(h, call, out[i]) && !InFlight(call, out[i].id))
    && (forall k :: k in call.visited && Now(h)[k].userID == call.userID && !Now(h)[k].deleted ==>
          InFlight(call, k) || Listed(out, k))
  }

  ghost predicate CallInv(h: seq<Data>, call: Call)
    requires |h| > 0
  {
    && ControlInv(h, call)
    && CopiesInv(h, call)
    && (call.role.Deleting? ==> DeleteInv(h, call))
    && (call.role.Listing? ==> ListInv(h, call))
  }

  ghost predicate Inv(s: State) {
    && Chain(s.history)
    && forall c :: c in s.calls ==> CallInv(s.history, s.calls[c])
  }

  lemma ChainGrows(h: seq<Data>, d: Data)
    requires Chain(h) && Precedes(Now(h), d)
    ensures Chain(h + [d])
  {
    var g := h + [d];
    forall i, j | 0 <= i <= j < |g| ensures Precedes(g[i], g[j]) {
      if j == |h| && i < |h| {
        PrecedesTransitive(h[i], Now(h), d);
      }
    }
  }

  lemma GoodCopyGrows(h: seq<Data>, d: Data, call: Call, item: Item)
    requires GoodCopy(h, call, item)
    ensures GoodCopy(h + [d], call, item)
  {
    var i :| call.from <= i < |h| && item.id in h[i] && h[i][item.id] == item.data;
    assert (h + [d])[i] == h[i];
  }

  // A copy was taken from the key's past, so the key still has its url and owner.
  lemma GoodCopyIsPast(h: seq<Data>, call: Call, item: Item)
    requires Chain(h) && GoodCopy(h, call, item)
    ensures item.id in Now(h) && MayBecome(item.data, Now(h)[item.id])
  {
    var i :| call.from <= i < |h| && item.id in h[i] && h[i][item.id] == item.data;
    assert Precedes(h[i], h[|h| - 1]);
  }

  // What one call knows is not disturbed by the writes of another.
  lemma CallInvGrows(h: seq<Data>, d: Data, call: Call)
    requires Chain(h) && Precedes(Now(h), d) && CallInv(h, call)
    ensures CallInv(h + [d], call)
  {
    var g := h + [d];
    if call.producer.Sending? { GoodCopyGrows(h, d, call, call.producer.item); }
    if call.consumer.Holding? { GoodCopyGrows(h, d, call, call.consumer.item); }
    assert CopiesInv(g, call);
    if call.role.Listing? {
      var out := call.role.out;
      forall i | 0 <= i < |out| ensures GoodCopy(g, call, out[i]) {
        GoodCopyGrows(h, d, call, out[i]);
      }
    }
  }

  // ---- Every step keeps the invariant ----

  lemma BeginKeeps(h: seq<Data>, userID: string, role: Role)
    requires Chain(h) && (role == Listing([]) || (role.Deleting? && role.rest == role.ids))
    ensures CallInv(h, Call(userID, role, |h| - 1, 0, {}, Idle, Receiving, false))
  {
  }

  lemma CopyVisited(h: seq<Data>, call: Call, id: string, e: Entry, item: Item)
    requires GoodCopy(h, call, item)
    ensures GoodCopy(h, AfterVisit(call, id, e), item)
  {
  }

  lemma VisitKeepsCopies(h: seq<Data>, call: Call, id: string, at: nat)
    requires Chain(h) && CallInv(h, call) && call.producer.Ranging? && id !in call.visited
    requires call.from <= at < |h| && id in h[at]
    ensures CopiesInv(h, AfterVisit(call, id, h[at][id]))
  {
    var e := h[at][id];
    var after := AfterVisit(call, id, e);
    assert Precedes(h[at], h[|h| - 1]);
    if after.producer.Sending? { assert GoodCopy(h, after, Item(id, e)); }
    if call.consumer.Holding? { CopyVisited(h, call, id, e, call.consumer.item); }
  }

  lemma VisitKeeps(h: seq<Data>, call: Call, id: string, at: nat)
    requires Chain(h) && CallInv(h, call) && call.producer.Ranging? && id !in call.visited
    requires call.from <= at < |h| && id in h[at]
    ensures CallInv(h, AfterVisit(call, id, h[at][id]))
  {
    var after := AfterVisit(call, id, h[at][id]);
    assert Precedes(h[at], h[|h| - 1]);
    VisitKeepsCopies(h, call, id, at);
    if call.role.Listing? {
      forall i | 0 <= i < |call.role.out| ensures GoodCopy(h, after, call.role.out[i]) {
        CopyVisited(h, call, id, h[at][id], call.role.out[i]);
      }
    }
  }

  lemma EndRangeKeeps(h: seq<Data>, call: Call)
    requires Chain(h) && CallInv(h, call) && call.producer.Ranging?
    requires forall k :: PresentThroughout(h, call.from, k) ==> k in call.visited
    ensures CallInv(h, call.(producer := Closed))
  {
    var after := call.(producer := Closed);
    forall k | k in h[call.from] ensures k in call.visited {
      forall i | call.from <= i < |h| ensures k in h[i] {
        assert Precedes(h[call.from], h[i]);
      }
      assert PresentThroughout(h, call.from, k);
    }
    SameCopies(h, call, after);
  }

  // The remaining steps do not touch visited, userID and from, on which copies depend.
  lemma SameCopies(h: seq<Data>, call: Call, after: Call)
    requires after.visited == call.visited && after.userID == call.userID && after.from == call.from
    ensures forall item :: GoodCopy(h, call, item) ==> GoodCopy(h, after, item)
  {
  }

  lemma HandOffKeeps(h: seq<Data>, call: Call)
    requires Chain(h) && CallInv(h, call) && call.producer.Sending? && call.consumer.Receiving?
    ensures CallInv(h, call.(producer := Ranging, consumer := Holding(call.producer.item)))
  {
    var after := call.(producer := Ranging, consumer := Holding(call.producer.item));
    SameCopies(h, call, after);
    assert forall k :: InFlight(call, k) <==> InFlight(after, k);
  }

  lemma ReturnKeeps(h: seq<Data>, call: Call, cancelled: bool)
    requires Chain(h) && CallInv(h, call) && call.producer.Closed? && call.consumer.Receiving?
    ensures CallInv(h, call.(consumer := Returned, cancelled := cancelled))
  {
    SameCopies(h, call, call.(consumer := Returned, cancelled := cancelled));
  }

  lemma StartKeeps(h: seq<Data>, call: Call)
    requires Chain(h) && CallInv(h, call) && call.producer.Idle?
    ensures CallInv(h, call.(producer := Ranging, from := |h| - 1))
  {
  }

  // The copy written back differs from the current value in the deleted flag only.
  lemma WriteBackPrecedes(h: seq<Data>, call: Call)
    requires Chain(h) && CallInv(h, call) && call.consumer.Holding?
    ensures Precedes(Now(h), Written(Now(h), call.consumer.item))
  {
    GoodCopyIsPast(h, call, call.consumer.item);
  }

  // The item held is no longer in flight, and nothing else changes but the role.
  lemma ItemLanded(h: seq<Data>, call: Call)
    requires |h| > 0 && CallInv(h, call) && call.consumer.Holding?
    ensures ControlInv(h, AfterConsume(call)) && CopiesInv(h, AfterConsume(call))
    ensures forall k :: InFlight(call, k) <==> InFlight(AfterConsume(call), k) || k == call.consumer.item.id
  {
    SameCopies(h, call, AfterConsume(call));
  }

  lemma RestTaken(g: seq<Data>, call: Call)
    requires |g| > 0 && CallInv(g, call) && call.consumer.Holding? && call.role.Deleting?
    ensures var id, rest, ids := call.consumer.item.id, call.role.rest, call.role.ids;
            && (id in ids <==> id in rest)
            && multiset(RemoveFirst(rest, id)) == multiset(rest) - multiset{id}
  {
    var id, rest, ids := call.consumer.item.id, call.role.rest, call.role.ids;
    assert InFlight(call, id);
    assert multiset(rest)[id] == multiset(ids)[id];
    assert id in ids <==> id in multiset(ids);
    if id in rest { RemoveFirstMultiset(rest, id); }
  }

  lemma OneTaken(ids: multiset<string>, rest: multiset<string>, id: string)
    requires rest <= ids
    ensures rest - multiset{id} <= ids
    ensures forall k :: k != id && rest[k] == ids[k] ==> (rest - multiset{id})[k] == ids[k]
  {
  }

  lemma RestBalanced(g: seq<Data>, call: Call)
    requires |g| > 0 && CallInv(g, call) && call.consumer.Holding? && call.role.Deleting?
    ensures var after := AfterConsume(call); var ids, rest := after.role.ids, after.role.rest;
            && multiset(rest) <= multiset(ids)
            && (forall k :: k !in after.visited || InFlight(after, k) ==> multiset(rest)[k] == multiset(ids)[k])
  {
    RestTaken(g, call);
    ItemLanded(g, call);
    OneTaken(multiset(call.role.ids), multiset(call.role.rest), call.consumer.item.id);
    forall k | k !in call.visited || InFlight(AfterConsume(call), k)
      ensures k != call.consumer.item.id && multiset(call.role.rest)[k] == multiset(call.role.ids)[k]
    {
    }
  }

  // The item held is done with: it is marked deleted, or was not asked for.
  lemma ItemTaken(g: seq<Data>, call: Call)
    requires |g| > 0 && CallInv(g, call) && call.consumer.Holding? && call.role.Deleting?
    requires Writes(call) ==> Now(g)[call.consumer.item.id].deleted
    ensures CallInv(g, AfterConsume(call))
  {
    ItemLanded(g, call);
    RestBalanced(g, call);
    var after := AfterConsume(call);
    forall k | k in after.visited && Now(g)[k].userID == after.userID && k in after.role.ids
      ensures InFlight(after, k) || Now(g)[k].deleted
    {
      if k == call.consumer.item.id { RestTaken(g, call); }
    }
  }

  lemma ConsumeListKeeps(h: seq<Data>, call: Call)
    requires Chain(h) && CallInv(h, call) && call.consumer.Holding? && call.role.Listing?
    ensures CallInv(h, AfterConsume(call))
  {
    ItemLanded(h, call);
    ListedMore(call.role.out, call.consumer.item);
    AnswerGrows(h, call);
    assert ListInv(h, AfterConsume(call));
  }

  lemma AnswerGrows(h: seq<Data>, call: Call)
    requires |h| > 0 && CallInv(h, call) && call.consumer.Holding? && call.role.Listing?
    ensures var after := AfterConsume(call); var out := after.role.out;
            && (forall i, j :: 0 <= i < j < |out| ==> out[i].id != out[j].id)
            && (forall i :: 0 <= i < |out| ==> GoodCopy(h, after, out[i]) && !InFlight(after, out[i].id))
  {
    var after := AfterConsume(call);
    SameCopies(h, call, after);
    forall i | 0 <= i < |call.role.out| ensures after.role.out[i].id != call.consumer.item.id {
      assert !InFlight(call, call.role.out[i].id);
    }
  }

  lemma ListedMore(out: seq<Item>, item: Item)
    ensures forall k :: Listed(out + [item], k) <==> Listed(out, k) || k == item.id
  {
    var more := out + [item];
    forall k ensures Listed(more, k) <==> Listed(out, k) || k == item.id {
      if Listed(out, k) {
        var i :| 0 <= i < |out| && out[i].id == k;
        assert more[i].id == k;
      }
      assert more[|out|] == item;
    }
  }

  lemma GrowKeeps(s: State, d: Data)
    requires Inv(s) && Precedes(Now(s.history), d)
    ensures Inv(s.(history := s.history + [d]))
  {
    ChainGrows(s.history, d);
    forall c | c in s.calls ensures CallInv(s.history + [d], s.calls[c]) {
      CallInvGrows(s.history, d, s.calls[c]);
    }
  }

  lemma CallReplaced(s: State, t: State, c: nat)
    requires Chain(t.history) && c in t.calls && t.calls == s.calls[c := t.calls[c]]
    requires forall k :: k in s.calls ==> CallInv(t.history, s.calls[k])
    requires CallInv(t.history, t.calls[c])
    ensures Inv(t)
  {
  }

  lemma ConsumeApplied(s: State, c: nat)
    requires |s.history| > 0 && c in s.calls && s.calls[c].consumer.Holding?
    ensures var call, t := s.calls[c], Apply(s, Consume(c));
            && t.calls == s.calls[c := AfterConsume(call)]
            && t.history == if Writes(call) then s.history + [Written(Now(s.history), call.consumer.item)]
                            else s.history
  {
  }

  lemma ConsumedKeeps(h: seq<Data>, call: Call)
    requires Chain(h) && CallInv(h, call) && call.consumer.Holding?
    requires Writes(call) ==> Now(h)[call.consumer.item.id].deleted
    ensures CallInv(h, AfterConsume(call))
  {
    if call.role.Deleting? { ItemTaken(h, call); } else { ConsumeListKeeps(h, call); }
  }

  lemma ConsumeKeeps(s: State, c: nat)
    requires Inv(s) && c in s.calls && s.calls[c].consumer.Holding?
    ensures Inv(Apply(s, Consume(c)))
    ensures Precedes(Now(s.history), Now(Apply(s, Consume(c)).history))
  {
    var call := s.calls[c];
    ConsumeApplied(s, c);
    var t := Apply(s, Consume(c));
    if Writes(call) {
      WriteBackPrecedes(s.history, call);
      GrowKeeps(s, Written(Now(s.history), call.consumer.item));
    }
    ConsumedKeeps(t.history, call);
    CallReplaced(s, t, c);
  }

  // What a step of one call leaves that call with.
  ghost function Updated(s: State, step: Step): Call
    requires |s.history| > 0 && Enabled(s, step) && !step.Store? && !step.Load? && !step.Consume?
  {
    Apply(s, step).calls[step.c]
  }

  lemma UpdatedKeeps(s: State, step: Step)
    requires Inv(s) && Enabled(s, step) && !step.Store? && !step.Load? && !step.Consume?
    ensures CallInv(s.history, Updated(s, step))
    ensures Apply(s, step) == s.(calls := s.calls[step.c := Updated(s, step)])
  {
    var h := s.history;
    match step
    case BeginDelete(c, user, ids) => BeginKeeps(h, user, Deleting(ids, ids));
    case BeginList(c, user) => BeginKeeps(h, user, Listing([]));
    case StartRange(c) => StartKeeps(h, s.calls[c]);
    case Visit(c, id, at) => VisitKeeps(h, s.calls[c], id, at);
    case EndRange(c) => EndRangeKeeps(h, s.calls[c]);
    case HandOff(c) => HandOffKeeps(h, s.calls[c]);
    case Return(c) => ReturnKeeps(h, s.calls[c], s.calls[c].role.Deleting?);
  }

  lemma StepKeepsInv(s: State, step: Step)
    requires Inv(s) && Enabled(s, step)
    ensures Inv(Apply(s, step))
    ensures Precedes(Now(s.history), Now(Apply(s, step).history))
  {
    if step.Store? {
      if step.id !in Now(s.history) {
        GrowKeeps(s, StoreEntry(Now(s.history), step.id, step.url, step.userID).0);
      }
    } else if step.Consume? {
      ConsumeKeeps(s, step.c);
    } else if !step.Load? {
      UpdatedKeeps(s, step);
    }
  }

  // The map after a step.
  ghost function NextNow(s: State, step: Step): Data
    requires |s.history| > 0 && Enabled(s, step)
  {
    var now := Now(s.history);
    if step.Store? then StoreEntry(now, step.id, step.url, step.userID).0
    else if step.Consume? && Writes(s.calls[step.c]) then Written(now, s.calls[step.c].consumer.item)
    else now
  }

  lemma NowAfter(s: State, step: Step)
    requires |s.history| > 0 && Enabled(s, step)
    ensures Now(Apply(s, step).history) == NextNow(s, step)
    ensures Apply(s, step).history[0] == s.history[0]
  {
  }
}
