// The storage file of the in-memory store, record by record: every flush appends what Range shows
// it of the map and loading replays the records, the last one of each key winning.
module FileLog {
  import opened Types
  import Interleaving

  // One line of the file.
  datatype Record = Record(id: string, url: string, userID: string, deleted: bool)

  function Value(r: Record): Entry {
    Entry(r.url, r.userID, r.deleted)
  }

  lemma SnapshotRecords(data: Data, recs: seq<Record>)
    requires PartialSnapshot(data, recs)
    ensures forall r :: r in recs ==> r.id in data && data[r.id] == Entry(r.url, r.userID, r.deleted)
  {
  }

  // What ReadFile stores, record by record.
  function Replay(log: seq<Record>): Data {
    if log == [] then map[]
    else var r := log[|log| - 1]; Replay(log[..|log| - 1])[r.id := Value(r)]
  }

  // Some of the entries of data, each at most once, in any order: what Flush has written when it
  // stops at a write error.
  ghost predicate PartialSnapshot(data: Data, recs: seq<Record>) {
    && (forall i :: 0 <= i < |recs| ==> recs[i].id in data && data[recs[i].id] == Value(recs[i]))
    && (forall i, j :: 0 <= i < j < |recs| ==> recs[i].id != recs[j].id)
  }

  ghost predicate Wrote(recs: seq<Record>, k: string) {
    exists i :: 0 <= i < |recs| && recs[i].id == k
  }

  ghost predicate Snapshot(data: Data, recs: seq<Record>) {
    PartialSnapshot(data, recs) && forall k :: k in data ==> Wrote(recs, k)
  }

  lemma WroteMore(recs: seq<Record>, r: Record)
    ensures forall k :: Wrote(recs + [r], k) <==> Wrote(recs, k) || k == r.id
  {
    var more := recs + [r];
    forall k ensures Wrote(more, k) <==> Wrote(recs, k) || k == r.id {
      if Wrote(recs, k) {
        var i :| 0 <= i < |recs| && recs[i].id == k;
        assert more[i].id == k;
      }
      if k == r.id {
        assert more[|recs|].id == k;
      }
    }
  }

  lemma ReplayPut(log: seq<Record>, r: Record)
    ensures Replay(log + [r]) == Replay(log)[r.id := Value(r)]
  {
    assert (log + [r])[..|log + [r]| - 1] == log;
  }

  // After any part of a snapshot, a key reads as it is now if it was reached, and as before if not.
  lemma {:induction false} ReplayPartial(log: seq<Record>, data: Data, recs: seq<Record>)
    requires PartialSnapshot(data, recs)
    ensures forall k :: k in Replay(log + recs) <==> k in Replay(log) || Wrote(recs, k)
    ensures forall k :: k in Replay(log + recs) ==>
              Replay(log + recs)[k] == if Wrote(recs, k) then data[k] else Replay(log)[k]
  {
    if recs == [] {
      assert log + recs == log;
    } else {
      var n := |recs| - 1;
      ReplayPartial(log, data, recs[..n]);
      ReplayPut(log + recs[..n], recs[n]);
      WroteMore(recs[..n], recs[n]);
      assert recs[..n] + [recs[n]] == recs && log + recs == log + recs[..n] + [recs[n]];
    }
  }

  // A whole snapshot makes the file replay to the map it was taken of.
  lemma SnapshotReplays(log: seq<Record>, data: Data, recs: seq<Record>)
    requires Snapshot(data, recs) && Replay(log).Keys <= data.Keys
    ensures Replay(log + recs) == data
  {
    ReplayPartial(log, data, recs);
    forall k | Wrote(recs, k) ensures k in data {
    }
  }

  // ---- Histories ----

  // A flush under way: the maps there have been since Range began, the last being the present one,
  // and the keys Range has visited.
  datatype Range = Idle | Ranging(seen: seq<Data>, visited: set<string>)

  // The map in memory, the records in the file, the map when the last complete flush began, and
  // the flush under way.
  datatype State = State(mem: Data, log: seq<Record>, flushed: Data, range: Range)

  // A step of any call that is being served, which the service goes on doing during a flush; the
  // steps of a flush; a new start, also after a crash.
  datatype Event = Change(to: Data) | BeginFlush | Put(id: string, at: nat) | EndFlush | BreakOff | Restart

  // Range visits no key twice, may see any value a key had since it began, and ends only when every
  // key present throughout has been visited.
  ghost predicate Possible(s: State, e: Event) {
    match e
    case Change(to) => Precedes(s.mem, to)
    case BeginFlush => s.range.Idle?
    case Put(id, at) =>
      s.range.Ranging? && at < |s.range.seen| && id in s.range.seen[at] && id !in s.range.visited
    case EndFlush =>
      s.range.Ranging? && s.range.seen != [] && forall k :: InAll(s.range.seen, k) ==> k in s.range.visited
    case BreakOff => s.range.Ranging?
    case Restart => true
  }

  ghost predicate InAll(seen: seq<Data>, k: string) {
    forall i :: 0 <= i < |seen| ==> k in seen[i]
  }

  function RecordOf(id: string, e: Entry): Record {
    Record(id, e.url, e.userID, e.deleted)
  }

  ghost function Apply(s: State, e: Event): State
    requires Possible(s, e)
  {
    match e
    case Change(to) =>
      s.(mem := to, range := if s.range.Idle? then Idle else s.range.(seen := s.range.seen + [to]))
    case BeginFlush => s.(range := Ranging([s.mem], {}))
    case Put(id, at) =>
      s.(log := s.log + [RecordOf(id, s.range.seen[at][id])], range := s.range.(visited := s.range.visited + {id}))
    case EndFlush => s.(flushed := s.range.seen[0], range := Idle)
    case BreakOff => s.(range := Idle)
    case Restart => s.(mem := Replay(s.log), range := Idle)
  }

  ghost predicate ValidRun(s: State, es: seq<Event>)
    decreases |es|
  {
    es == [] || (Possible(s, es[0]) && ValidRun(Apply(s, es[0]), es[1..]))
  }

  ghost function Run(s: State, es: seq<Event>): State
    requires ValidRun(s, es)
    decreases |es|
  {
    if es == [] then s else Run(Apply(s, es[0]), es[1..])
  }

  // The service starts by loading the file.
  function Started(log: seq<Record>): State {
    State(Replay(log), log, Replay(log), Idle)
  }

  // Every step of every call, however calls interleave, changes the map as Change allows.
  lemma StepChanges(s: State, calls: Interleaving.State, step: Interleaving.Step)
    requires Interleaving.Inv(calls) && Interleaving.Enabled(calls, step)
    requires s.mem == Interleaving.Now(calls.history)
    ensures Possible(s, Change(Interleaving.Now(Interleaving.Apply(calls, step).history)))
  {
    Interleaving.StepKeepsInv(calls, step);
  }

  // What a restart would bring back lies between the last complete flush and the present.
  ghost predicate Inv(s: State) {
    && Precedes(s.flushed, Replay(s.log)) && Precedes(Replay(s.log), s.mem)
    && (s.range.Ranging? ==> RangeInv(s))
  }

  ghost predicate RangeInv(s: State)
    requires s.range.Ranging?
  {
    var seen := s.range.seen;
    && seen != [] && seen[|seen| - 1] == s.mem
    && (forall i, j :: 0 <= i <= j < |seen| ==> Precedes(seen[i], seen[j]))
    && Precedes(s.flushed, seen[0])
    && forall k :: k in s.range.visited ==> Reached(seen[0], Replay(s.log), k)
  }

  // k is in the replay, no older than it was in the map a.
  ghost predicate Reached(a: Data, replay: Data, k: string) {
    k in replay && (k in a ==> MayBecome(a[k], replay[k]))
  }

  lemma ChangeKeepsInv(s: State, to: Data)
    requires Inv(s) && Precedes(s.mem, to)
    ensures Inv(Apply(s, Change(to)))
  {
    PrecedesTransitive(Replay(s.log), s.mem, to);
    if s.range.Ranging? {
      var seen := s.range.seen;
      forall i | 0 <= i < |seen| ensures Precedes(seen[i], to) {
        PrecedesTransitive(seen[i], s.mem, to);
      }
    }
  }

  lemma PutKeepsInv(s: State, id: string, at: nat)
    requires Inv(s) && Possible(s, Put(id, at))
    ensures Inv(Apply(s, Put(id, at)))
  {
    var seen := s.range.seen;
    var r := RecordOf(id, seen[at][id]);
    assert Value(r) == seen[at][id];
    ReplayPut(s.log, r);
    assert Precedes(seen[0], seen[at]) && Precedes(seen[at], s.mem);
    PrecedesTransitive(s.flushed, seen[0], seen[at]);
  }

  // A flush that ends has reached everything there was when it began.
  lemma EndKeepsInv(s: State)
    requires Inv(s) && Possible(s, EndFlush)
    ensures Inv(Apply(s, EndFlush))
  {
    var seen := s.range.seen;
    forall k | k in seen[0] ensures k in s.range.visited {
      assert forall i :: 0 <= i < |seen| ==> Precedes(seen[0], seen[i]);
      assert InAll(seen, k);
    }
  }

  lemma EventKeepsInv(s: State, e: Event)
    requires Inv(s) && Possible(s, e)
    ensures Inv(Apply(s, e))
  {
    match e
    case Change(to) => ChangeKeepsInv(s, to);
    case Put(id, at) => PutKeepsInv(s, id, at);
    case EndFlush => EndKeepsInv(s);
    case _ =>
  }

  lemma {:induction false} RunKeepsInv(s: State, es: seq<Event>)
    requires Inv(s) && ValidRun(s, es)
    ensures Inv(Run(s, es))
    decreases |es|
  {
    if es == [] {
    } else {
      EventKeepsInv(s, es[0]);
      RunKeepsInv(Apply(s, es[0]), es[1..]);
    }
  }

  // Over every history of calls, restarts and flushes, complete or broken off, with calls served
  // at any point of a flush: everything there was when the last complete flush began is replayed,
  // no url or owner changes and no deletion made by then is undone, and a replay shows nothing that
  // is not in memory.
  lemma ReplayBetween(log: seq<Record>, es: seq<Event>)
    requires ValidRun(Started(log), es)
    ensures var s := Run(Started(log), es);
            Precedes(s.flushed, Replay(s.log)) && Precedes(Replay(s.log), s.mem)
  {
    RunKeepsInv(Started(log), es);
  }

  // ---- What survives a restart ----

  // What the last complete flush began with only grows.
  lemma {:induction false} FlushedGrows(s: State, es: seq<Event>)
    requires Inv(s) && ValidRun(s, es)
    ensures Precedes(s.flushed, Run(s, es).flushed)
    decreases |es|
  {
    if es == [] {
    } else {
      var t := Apply(s, es[0]);
      EventKeepsInv(s, es[0]);
      FlushedGrows(t, es[1..]);
      PrecedesTransitive(s.flushed, t.flushed, Run(s, es).flushed);
    }
  }

  predicate DuringFlush(es: seq<Event>) {
    forall i :: 0 <= i < |es| ==> es[i].Change? || es[i].Put?
  }

  lemma {:induction false} FlushRemembers(s: State, es: seq<Event>)
    requires s.range.Ranging? && s.range.seen != [] && ValidRun(s, es) && DuringFlush(es)
    ensures var t := Run(s, es); t.range.Ranging? && t.range.seen != [] && t.range.seen[0] == s.range.seen[0]
    decreases |es|
  {
    if es == [] {
    } else {
      FlushRemembers(Apply(s, es[0]), es[1..]);
    }
  }

  // A complete flush from state s: what happens during it, and what happens later.
  ghost predicate Flushed(s: State, during: seq<Event>, later: seq<Event>) {
    && s.range.Idle? && DuringFlush(during)
    && ValidRun(Apply(s, BeginFlush), during)
    && Possible(Run(Apply(s, BeginFlush), during), EndFlush)
    && ValidRun(Apply(Run(Apply(s, BeginFlush), during), EndFlush), later)
  }

  ghost function FlushedRun(s: State, during: seq<Event>, later: seq<Event>): State
    requires Flushed(s, during, later)
  {
    Run(Apply(Run(Apply(s, BeginFlush), during), EndFlush), later)
  }

  // Whatever there is when a flush begins that runs to its end is in the file from then on: every later
  // replay has each entry with its url and owner, no less deleted, whatever is called, flushed, broken
  // off or restarted after it.
  lemma FlushPersists(s: State, during: seq<Event>, later: seq<Event>)
    requires Inv(s) && Flushed(s, during, later)
    ensures var r := FlushedRun(s, during, later);
            Inv(r) && Precedes(s.mem, Replay(r.log)) && Precedes(s.mem, r.mem)
  {
    var begun := Apply(s, BeginFlush);
    var full := Run(begun, during);
    var ended := Apply(full, EndFlush);
    FlushRemembers(begun, during);
    EventKeepsInv(s, BeginFlush);
    RunKeepsInv(begun, during);
    EventKeepsInv(full, EndFlush);
    RunKeepsInv(ended, later);
    FlushedGrows(ended, later);
    var r := Run(ended, later);
    PrecedesTransitive(s.mem, r.flushed, Replay(r.log));
    PrecedesTransitive(s.mem, Replay(r.log), r.mem);
  }

  // A restart loads the replay of the file and forgets the flush under way.
  lemma RestartLoads(s: State)
    ensures Run(s, [Restart]).mem == Replay(s.log)
    ensures Run(s, [Restart]).log == s.log && Run(s, [Restart]).range == Idle
  {
    assert [Restart][1..] == [];
  }

  lemma OneEvent(s: State, e: Event)
    requires Possible(s, e)
    ensures ValidRun(s, [e]) && Run(s, [e]) == Apply(s, e)
  {
    assert [e][1..] == [] && [e][0] == e;
    assert ValidRun(Apply(s, e), []) && Run(Apply(s, e), []) == Apply(s, e);
  }

  // The state after StoreURL has added an entry.
  ghost function AfterStore(s: State, id: string, url: string, userID: string): State
    requires id !in s.mem
  {
    OneEvent(s, Change(s.mem[id := Entry(url, userID, false)]));
    Run(s, [Change(s.mem[id := Entry(url, userID, false)])])
  }

  // A URL that StoreURL adds after any history and that a complete flush follows comes back after every
  // later restart, with its url and owner.
  lemma StoredSurvives(log: seq<Record>, es: seq<Event>, id: string, url: string, userID: string,
                       during: seq<Event>, later: seq<Event>)
    requires ValidRun(Started(log), es) && id !in Run(Started(log), es).mem
    requires Flushed(AfterStore(Run(Started(log), es), id, url, userID), during, later)
    ensures var r := FlushedRun(AfterStore(Run(Started(log), es), id, url, userID), during, later);
            var after := Run(r, [Restart]).mem;
            id in after && after[id].url == url && after[id].userID == userID
  {
    var s := Run(Started(log), es);
    var change := Change(s.mem[id := Entry(url, userID, false)]);
    var stored := AfterStore(s, id, url, userID);
    OneEvent(s, change);
    assert stored.mem[id] == Entry(url, userID, false);
    RunKeepsInv(Started(log), es);
    EventKeepsInv(s, change);
    FlushPersists(stored, during, later);
    RestartLoads(FlushedRun(stored, during, later));
  }

  // ---- Quiet histories ----

  // No flush broke off and nothing changed during one.
  ghost predicate Quiet(s: State, es: seq<Event>)
    requires ValidRun(s, es)
    decreases |es|
  {
    es == [] || ((s.range.Ranging? ==> es[0].Put? || es[0].EndFlush?) && Quiet(Apply(s, es[0]), es[1..]))
  }

  ghost predicate QuietInv(s: State) {
    match s.range
    case Idle => Replay(s.log) == s.flushed
    case Ranging(seen, visited) =>
      |seen| == 1 && forall k :: k in visited ==> k in Replay(s.log) && k in s.mem && Replay(s.log)[k] == s.mem[k]
  }

  lemma QuietPut(s: State, id: string, at: nat)
    requires Inv(s) && QuietInv(s) && Possible(s, Put(id, at))
    ensures QuietInv(Apply(s, Put(id, at)))
  {
    var r := RecordOf(id, s.range.seen[at][id]);
    assert Value(r) == s.mem[id];
    ReplayPut(s.log, r);
  }

  lemma QuietEnd(s: State)
    requires Inv(s) && QuietInv(s) && Possible(s, EndFlush)
    ensures QuietInv(Apply(s, EndFlush)) && Apply(s, EndFlush).flushed == s.mem
  {
    var seen := s.range.seen;
    forall k | k in s.mem ensures k in s.range.visited {
      assert InAll(seen, k);
    }
    assert Replay(s.log) == s.mem;
  }

  lemma {:induction false} QuietKeeps(s: State, es: seq<Event>)
    requires Inv(s) && QuietInv(s) && ValidRun(s, es) && Quiet(s, es)
    ensures QuietInv(Run(s, es))
    decreases |es|
  {
    if es == [] {
    } else {
      EventKeepsInv(s, es[0]);
      match es[0] {
        case Put(id, at) => QuietPut(s, id, at);
        case EndFlush => QuietEnd(s);
        case _ =>
      }
      QuietKeeps(Apply(s, es[0]), es[1..]);
    }
  }

  // Without calls during a flush and when none broke off, replaying the file gives exactly the map
  // as of the last flush, whatever order each was written in.
  lemma ReplayIsLastFlush(log: seq<Record>, es: seq<Event>)
    requires ValidRun(Started(log), es) && Quiet(Started(log), es)
    ensures var s := Run(Started(log), es); s.range.Idle? ==> Replay(s.log) == s.flushed
  {
    QuietKeeps(Started(log), es);
  }

  // So a restart behind a quiet flush loads the map as it was.
  lemma RestartIsLastFlush(log: seq<Record>, es: seq<Event>)
    requires ValidRun(Started(log), es) && Quiet(Started(log), es)
    requires Possible(Run(Started(log), es), EndFlush)
    ensures var s := Run(Started(log), es); Run(Apply(s, EndFlush), [Restart]).mem == s.mem
  {
    RunKeepsInv(Started(log), es);
    QuietKeeps(Started(log), es);
    QuietEnd(Run(Started(log), es));
    RestartLoads(Apply(Run(Started(log), es), EndFlush));
  }

  // ---- Flush running alone ----

  // Flush on a store holding data, with a file manager; the writer accepts that many records
  // and then reports an error, at which Range stops.
  class FileManager {
    var log: seq<Record>

    method Flush(data: Data, accepts: nat) returns (ok: bool)
      modifies this
      ensures old(log) <= log
      ensures PartialSnapshot(data, log[|old(log)|..])
      ensures ok <==> Snapshot(data, log[|old(log)|..])
      ensures forall r :: r in log[|old(log)|..] ==>
                r.id in data && data[r.id] == Entry(r.url, r.userID, r.deleted)
      ensures ok <==> |data| <= accepts
    {
      ok := true;
      ghost var recs: seq<Record> := [];
      var todo := data.Keys;
      var written := 0;
      while ok && todo != {}
        invariant todo <= data.Keys && log == old(log) + recs
        invariant PartialSnapshot(data, recs)
        invariant ok ==> forall k :: k in data.Keys - todo ==> Wrote(recs, k)
        invariant forall i :: 0 <= i < |recs| ==> recs[i].id !in todo
        invariant ok ==> |recs| + |todo| == |data|
        invariant !ok ==> exists k :: k in data && !Wrote(recs, k)
        invariant written == |recs|
        invariant if ok then |recs| <= accepts else accepts < |data|
        decreases ok, todo
      {
        var k :| k in todo;
        todo := todo - {k};
        if written < accepts {
          var r := RecordOf(k, data[k]);
          WroteMore(recs, r);
          log := log + [r];
          written := written + 1;
          recs := recs + [r];
        } else {
          ok := false;
          assert k in data && !Wrote(recs, k);
        }
      }
      assert log[|old(log)|..] == recs;
      SnapshotRecords(data, recs);
    }
  }

  // ---- The types of loaded values ----

  // A value of the map: filestorage.go stores a struct type of its own, which the type assertions
  // of inmemory.go do not accept.
  datatype Held = Own(entry: Entry) | FromFile(entry: Entry)

  datatype Answer = Result(r: LoadResult) | TypePanic

  function Restarted(data: Data): map<string, Held> {
    map k | k in data :: FromFile(data[k])
  }

  // StoreURL makes no assertion; LoadOrStore leaves a loaded value in place.
  function StoreHeld(m: map<string, Held>, r: Record): map<string, Held> {
    if r.id in m then m else m[r.id := Own(Value(r))]
  }

  function StoreAll(m: map<string, Held>, stores: seq<Record>): map<string, Held>
    decreases |stores|
  {
    if stores == [] then m else StoreAll(StoreHeld(m, stores[0]), stores[1..])
  }

  function LoadHeld(m: map<string, Held>, id: string): Answer {
    if id in m && m[id].FromFile? then TypePanic
    else Result(if id !in m then NotFound else if m[id].entry.deleted then Gone else Found(m[id].entry.url))
  }

  // CountUsers, LoadUrlsByUser, DeleteURLs and Flush assert every value Range comes by.
  predicate RangePanics(m: map<string, Held>) {
    exists k :: k in m && m[k].FromFile?
  }

  lemma {:induction false} StoresKeepLoaded(m: map<string, Held>, stores: seq<Record>)
    ensures forall k :: k in m ==> k in StoreAll(m, stores) && StoreAll(m, stores)[k] == m[k]
    ensures forall k :: k in StoreAll(m, stores) && k !in m ==> StoreAll(m, stores)[k].Own?
    decreases |stores|
  {
    if stores == [] {
    } else {
      StoresKeepLoaded(StoreHeld(m, stores[0]), stores[1..]);
    }
  }

  // The first of the stores of id.
  predicate FirstStore(stores: seq<Record>, i: int, id: string) {
    0 <= i < |stores| && stores[i].id == id && forall j :: 0 <= j < i ==> stores[j].id != id
  }

  lemma {:induction false} StoredFirst(m: map<string, Held>, stores: seq<Record>, id: string)
    requires id !in m
    ensures id in StoreAll(m, stores) <==> exists i :: 0 <= i < |stores| && stores[i].id == id
    ensures forall i :: FirstStore(stores, i, id) ==>
              id in StoreAll(m, stores)
              && StoreAll(m, stores)[id] == Own(Entry(stores[i].url, stores[i].userID, stores[i].deleted))
    decreases |stores|
  {
    if stores == [] {
    } else {
      var m1, rest := StoreHeld(m, stores[0]), stores[1..];
      if stores[0].id == id {
        StoresKeepLoaded(m1, rest);
        assert forall i :: FirstStore(stores, i, id) ==> i == 0;
      } else {
        StoredFirst(m1, rest, id);
        forall i | FirstStore(stores, i, id) ensures FirstStore(rest, i - 1, id) {
          assert stores[i] == rest[i - 1];
          assert forall j :: 0 <= j < i - 1 ==> rest[j] == stores[j + 1];
        }
        if i :| 0 <= i < |stores| && stores[i].id == id { assert rest[i - 1].id == id; }
      }
    }
  }

  // After a restart LoadURL panics for exactly the ids the file holds, whatever is stored later, and
  // answers the URL first stored since then for any other; counting users, listing, deleting and
  // flushing panic exactly when the file holds any record.
  lemma RestartPanics(log: seq<Record>, stores: seq<Record>, id: string)
    ensures var m := StoreAll(Restarted(Replay(log)), stores);
            && (LoadHeld(m, id) == TypePanic <==> id in Replay(log))
            && (RangePanics(m) <==> log != [])
            && (id !in Replay(log) ==>
                  && (LoadHeld(m, id) == Result(NotFound) <==> forall i :: 0 <= i < |stores| ==> stores[i].id != id)
                  && forall i :: FirstStore(stores, i, id) ==>
                       LoadHeld(m, id) == Result(if stores[i].deleted then Gone else Found(stores[i].url)))
  {
    StoresKeepLoaded(Restarted(Replay(log)), stores);
    if id !in Replay(log) { StoredFirst(Restarted(Replay(log)), stores, id); }
    if log != [] {
      assert log[|log| - 1].id in Replay(log);
      assert log[|log| - 1].id in Restarted(Replay(log));
    }
  }
}
