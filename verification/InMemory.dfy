// The methods of internal/storage/inmemory/inmemory.go when no other call runs. Range visits the
// keys in an order of its own choosing, so the loops below pick any key not yet visited.
module InMemory {
  import opened Types

  // A line of the answer to LoadUrlsByUser.
  datatype Pair = Pair(id: string, url: string)

  ghost function LiveKeys(data: Data, userID: string): set<string> {
    set k | k in data && IsLive(data[k], userID)
  }

  ghost function DeletedKeys(data: Data): set<string> {
    set k | k in data && data[k].deleted
  }

  ghost function Users(data: Data): set<string> {
    UsersAmong(data, data.Keys)
  }

  ghost function UsersAmong(data: Data, keys: set<string>): set<string>
    requires keys <= data.Keys
  {
    set k | k in keys :: data[k].userID
  }

  // The users are the owners of all URLs, deleted ones included.
  lemma UsersExact(data: Data)
    ensures forall u :: u in Users(data) <==> exists k :: k in data && data[k].userID == u
    ensures Users(data) == set k | k in data :: data[k].userID
  {
  }

  lemma OneMoreUser(data: Data, keys: set<string>, k: string)
    requires keys <= data.Keys && k in data
    ensures UsersAmong(data, keys + {k}) == UsersAmong(data, keys) + {data[k].userID}
  {
  }

  // out has one pair for each of the keys, with its url, and no other.
  ghost predicate Answers(data: Data, keys: set<string>, out: seq<Pair>) {
    && (forall k :: k in keys ==> exists i :: 0 <= i < |out| && out[i].id == k)
    && (forall i :: 0 <= i < |out| ==> out[i].id in keys && out[i].id in data && out[i].url == data[out[i].id].url)
    && (forall i, j :: 0 <= i < j < |out| ==> out[i].id != out[j].id)
  }

  lemma AnswersGrow(data: Data, keys: set<string>, out: seq<Pair>, k: string)
    requires Answers(data, keys, out) && k !in keys && k in data
    ensures Answers(data, keys + {k}, out + [Pair(k, data[k].url)])
  {
    var more := out + [Pair(k, data[k].url)];
    assert more[|out|].id == k;
    forall x | x in keys + {k} ensures exists i :: 0 <= i < |more| && more[i].id == x {
      if x in keys {
        var i :| 0 <= i < |out| && out[i].id == x;
        assert more[i].id == x;
      }
    }
  }

  lemma NextKey(data: Data, userID: string, todo: set<string>, k: string)
    requires k in todo && todo <= data.Keys
    ensures LiveKeys(data, userID) - (todo - {k}) ==
            (LiveKeys(data, userID) - todo) + (if IsLive(data[k], userID) then {k} else {})
  {
  }

  lemma AnswersExact(data: Data, userID: string, out: seq<Pair>)
    requires Answers(data, LiveKeys(data, userID), out)
    ensures forall k, url :: Pair(k, url) in out <==>
              k in data && data[k].userID == userID && !data[k].deleted && data[k].url == url
  {
    forall k | k in LiveKeys(data, userID) ensures Pair(k, data[k].url) in out {
      var i :| 0 <= i < |out| && out[i].id == k;
      assert out[i] == Pair(k, data[k].url);
    }
  }

  // What one key does to the answer of LoadUrlsByUser.
  lemma AnswersStep(data: Data, userID: string, todo: set<string>, out: seq<Pair>, k: string)
    requires k in todo && todo <= data.Keys
    requires Answers(data, LiveKeys(data, userID) - todo, out) && |out| == |LiveKeys(data, userID) - todo|
    ensures var next := if IsLive(data[k], userID) then out + [Pair(k, data[k].url)] else out;
            && Answers(data, LiveKeys(data, userID) - (todo - {k}), next)
            && |next| == |LiveKeys(data, userID) - (todo - {k})|
  {
    NextKey(data, userID, todo, k);
    if IsLive(data[k], userID) { AnswersGrow(data, LiveKeys(data, userID) - todo, out, k); }
  }

  lemma FirstFound(s: seq<string>, i: nat)
    requires i < |s| && forall j :: 0 <= j < i ==> s[j] != s[i]
    ensures RemoveFirst(s, s[i]) == s[..i] + s[i + 1..]
  {
    assert s[i] in s;
    assert FirstIndex(s, s[i]) == i;
  }

  // append(ids[:i], ids[i+1:]...) on the first n elements of ids, in the caller's array.
  method RemoveAt(ids: array<string>, i: nat, n: nat)
    requires i < n <= ids.Length
    modifies ids
    ensures ids[..n - 1] == old(ids[..i]) + old(ids[i + 1..n])
    ensures ids[n - 1..] == old(ids[n - 1..])
  {
    for j := i to n - 1
      invariant ids[..i] == old(ids[..i])
      invariant forall m :: i <= m < j ==> ids[m] == old(ids[m + 1])
      invariant ids[j..] == old(ids[j..])
    {
      assert ids[j + 1] == ids[j..][1];
      ids[j] := ids[j + 1];
    }
  }

  class Store {
    var data: Data

    // New without a storage file starts empty; with one it starts from what ReadFile returned.
    constructor (loaded: Data)
      ensures data == loaded
    {
      data := loaded;
    }

    method LoadURL(id: string) returns (r: LoadResult)
      ensures r == LoadEntry(data, id)
      ensures r == NotFound <==> id !in data
      ensures r == Gone <==> id in data && data[id].deleted
      ensures r.Found? ==> r.url == data[id].url
    {
      if id in data {
        if data[id].deleted {
          return Gone;
        }
        return Found(data[id].url);
      }
      return NotFound;
    }

    method StoreURL(id: string, url: string, userID: string) returns (r: StoreResult)
      modifies this
      ensures (data, r) == StoreEntry(old(data), id, url, userID)
      ensures r == if id in old(data) then Conflict else Stored
      ensures data == if id in old(data) then old(data) else old(data)[id := Entry(url, userID, false)]
    {
      if id in data {
        return Conflict;
      }
      data := data[id := Entry(url, userID, false)];
      return Stored;
    }

    method LoadUrlsByUser(userID: string) returns (out: seq<Pair>)
      ensures Answers(data, LiveKeys(data, userID), out)
      ensures |out| == |LiveKeys(data, userID)|
      ensures forall k, url :: Pair(k, url) in out <==>
                k in data && data[k].userID == userID && !data[k].deleted && data[k].url == url
    {
      out := [];
      var todo := data.Keys;
      while todo != {}
        invariant todo <= data.Keys
        invariant Answers(data, LiveKeys(data, userID) - todo, out)
        invariant |out| == |LiveKeys(data, userID) - todo|
      {
        var k :| k in todo;
        AnswersStep(data, userID, todo, out, k);
        if IsLive(data[k], userID) {
          out := out + [Pair(k, data[k].url)];
        }
        todo := todo - {k};
      }
      assert LiveKeys(data, userID) - todo == LiveKeys(data, userID);
      AnswersExact(data, userID, out);
    }

    method CountURLs() returns (length: nat)
      ensures length == |data|
    {
      length := 0;
      var todo := data.Keys;
      while todo != {}
        invariant todo <= data.Keys && length + |todo| == |data.Keys|
      {
        var k :| k in todo;
        todo := todo - {k};
        length := length + 1;
      }
    }

    method CountUsers() returns (n: nat)
      ensures n == |set k | k in data :: data[k].userID|
    {
      var users: set<string> := {};
      var todo := data.Keys;
      while todo != {}
        invariant todo <= data.Keys
        invariant users == UsersAmong(data, data.Keys - todo)
      {
        var k :| k in todo;
        OneMoreUser(data, data.Keys - todo, k);
        assert data.Keys - (todo - {k}) == (data.Keys - todo) + {k};
        todo := todo - {k};
        if data[k].userID !in users {
          users := users + {data[k].userID};
        }
      }
      assert data.Keys - todo == data.Keys;
      UsersExact(data);
      n := |users|;
    }

    // ids is shrunk in place: its first n elements are the ids that matched no live entry of the
    // user, and together with the matched ones they are the ids the caller passed.
    method DeleteURLs(userID: string, ids: array<string>) returns (n: nat)
      modifies this, ids
      ensures data == MarkDeleted(old(data), userID, old(ids[..]))
      ensures n <= ids.Length
      ensures multiset(ids[..n]) + multiset(set k | k in old(data) && old(data)[k].userID == userID
                && !old(data)[k].deleted && k in old(ids[..])) == multiset(old(ids[..]))
    {
      n := ids.Length;
      ghost var data0, ids0 := data, ids[..];
      var todo := data.Keys;
      assert ids[..n] == ids0;
      PartlyDeletedEnds(data0, userID, ids0);
      while todo != {}
        invariant n <= ids.Length && todo <= data0.Keys
        invariant data == PartlyDeleted(data0, todo, userID, ids0)
        invariant Conserved(ids[..n], Matched(data0, userID, ids0) - todo, ids0)
        decreases todo
      {
        var k :| k in todo;
        n := Consume(userID, ids, n, k, data0, ids0, todo);
        todo := todo - {k};
      }
      assert Matched(data0, userID, ids0) ==
             set k | k in data0 && data0[k].userID == userID && !data0[k].deleted && k in ids0;
    }

    // One key Range comes by: a live entry of the user goes over the channel, and the consumer
    // deletes it when it is listed.
    method Consume(userID: string, ids: array<string>, n: nat, k: string,
                   ghost data0: Data, ghost ids0: seq<string>, ghost todo: set<string>) returns (m: nat)
      requires n <= ids.Length && todo <= data0.Keys && k in todo
      requires data == PartlyDeleted(data0, todo, userID, ids0)
      requires Conserved(ids[..n], Matched(data0, userID, ids0) - todo, ids0)
      modifies this, ids
      ensures m <= ids.Length
      ensures data == PartlyDeleted(data0, todo - {k}, userID, ids0)
      ensures Conserved(ids[..m], Matched(data0, userID, ids0) - (todo - {k}), ids0)
    {
      m := n;
      PartlyDeletedStep(data0, todo, userID, ids0, k);
      if IsLive(data[k], userID) {
        ghost var rest, hit := ids[..n], Matched(data0, userID, ids0) - todo;
        var found;
        m, found := TakeOut(ids, n, k);
        TakeOutConserves(rest, hit, ids0, k);
        if found {
          data := data[k := Entry(data[k].url, data[k].userID, true)];
        }
      }
    }

    // The inner loop: look for k among the first n ids and, when found, remove it.
    method TakeOut(ids: array<string>, n: nat, k: string) returns (m: nat, found: bool)
      requires n <= ids.Length
      modifies ids
      ensures m <= n && found == (k in old(ids[..n]))
      ensures ids[..m] == RemoveFirst(old(ids[..n]), k)
    {
      var i := 0;
      while i < n && ids[i] != k
        invariant i <= n && forall j :: 0 <= j < i ==> ids[j] != k
      {
        i := i + 1;
      }
      found := i < n;
      m := n;
      if found {
        FirstFound(ids[..n], i);
        assert ids[..n][i] == k && ids[..n][..i] == ids[..i] && ids[..n][i + 1..] == ids[i + 1..n];
        RemoveAt(ids, i, n);
        m := n - 1;
      }
    }
  }

  // The ids a DeleteURLs call matches: keys of live entries of the user that it lists.
  ghost function Matched(data: Data, userID: string, ids: seq<string>): set<string> {
    set k | k in data && IsLive(data[k], userID) && k in ids
  }

  // Deletion as far as Range has come: the keys in todo are still to be visited.
  ghost function PartlyDeleted(data: Data, todo: set<string>, userID: string, ids: seq<string>): Data {
    map k | k in data :: if k in todo then data[k] else MarkDeleted(data, userID, ids)[k]
  }

  lemma PartlyDeletedStep(data: Data, todo: set<string>, userID: string, ids: seq<string>, k: string)
    requires todo <= data.Keys && k in todo
    ensures var now := PartlyDeleted(data, todo, userID, ids);
            var matched := Matched(data, userID, ids);
            && now[k] == data[k]
            && PartlyDeleted(data, todo - {k}, userID, ids) ==
               (if k in matched then now[k := data[k].(deleted := true)] else now)
            && matched - (todo - {k}) == (matched - todo) + (if k in matched then {k} else {})
  {
    var now, next := PartlyDeleted(data, todo, userID, ids), PartlyDeleted(data, todo - {k}, userID, ids);
    assert next[k] == MarkDeleted(data, userID, ids)[k];
  }

  lemma PartlyDeletedEnds(data: Data, userID: string, ids: seq<string>)
    ensures PartlyDeleted(data, data.Keys, userID, ids) == data
    ensures PartlyDeleted(data, {}, userID, ids) == MarkDeleted(data, userID, ids)
    ensures Matched(data, userID, ids) - data.Keys == {}
    ensures Matched(data, userID, ids) - {} == Matched(data, userID, ids)
  {
  }

  // Remaining plus matched ids are the original ones, duplicates included.
  ghost predicate Conserved(rest: seq<string>, matched: set<string>, ids: seq<string>) {
    multiset(rest) + multiset(matched) == multiset(ids)
  }

  // An id whose key has not come by yet is still among the remaining ones if it ever was; taking
  // it out then keeps the balance.
  lemma TakeOutConserves(rest: seq<string>, matched: set<string>, ids: seq<string>, k: string)
    requires Conserved(rest, matched, ids) && k !in matched
    ensures k in rest <==> k in ids
    ensures Conserved(RemoveFirst(rest, k), if k in ids then matched + {k} else matched, ids)
  {
    assert multiset(ids)[k] == multiset(rest)[k] + multiset(matched)[k];
    assert k in rest <==> k in multiset(rest);
    assert k in ids <==> k in multiset(ids);
    if k in rest { RemoveFirstMultiset(rest, k); }
  }

  // ---- Conservation ----

  ghost function LiveTotal(data: Data, users: set<string>): nat {
    if users == {} then 0
    else var u :| u in users; |LiveKeys(data, u)| + LiveTotal(data, users - {u})
  }

  // The keys of live entries of some of the users.
  ghost function LiveKeysOf(data: Data, users: set<string>): set<string> {
    set k | k in data && !data[k].deleted && data[k].userID in users
  }

  lemma SplitUser(data: Data, users: set<string>, u: string)
    requires u in users
    ensures |LiveKeysOf(data, users)| == |LiveKeys(data, u)| + |LiveKeysOf(data, users - {u})|
  {
    assert LiveKeysOf(data, users) == LiveKeys(data, u) + LiveKeysOf(data, users - {u});
    assert LiveKeys(data, u) !! LiveKeysOf(data, users - {u});
  }

  lemma {:induction false} LiveTotalCounts(data: Data, users: set<string>)
    ensures LiveTotal(data, users) == |LiveKeysOf(data, users)|
    decreases users
  {
    if users == {} {
      assert LiveKeysOf(data, users) == {};
    } else {
      var u :| u in users && LiveTotal(data, users) == |LiveKeys(data, u)| + LiveTotal(data, users - {u});
      LiveTotalCounts(data, users - {u});
      SplitUser(data, users, u);
    }
  }

  // Deleting changes neither the number of URLs nor that of users.
  lemma DeletionKeepsCounts(data: Data, userID: string, ids: seq<string>)
    ensures |MarkDeleted(data, userID, ids)| == |data|
    ensures (set k | k in MarkDeleted(data, userID, ids) :: MarkDeleted(data, userID, ids)[k].userID) ==
            set k | k in data :: data[k].userID
  {
    var after := MarkDeleted(data, userID, ids);
    assert after.Keys == data.Keys;
    assert forall k :: k in data ==> after[k].userID == data[k].userID;
    SameOwners(data, after);
  }

  lemma SameOwners(a: Data, b: Data)
    requires a.Keys == b.Keys && forall k :: k in a ==> a[k].userID == b[k].userID
    ensures (set k | k in a :: a[k].userID) == set k | k in b :: b[k].userID
  {
    var x, y := set k | k in a :: a[k].userID, set k | k in b :: b[k].userID;
    forall u ensures u in x <==> u in y {
      if u in x { var k :| k in a && a[k].userID == u; assert k in b && b[k].userID == u; }
      if u in y { var k :| k in b && b[k].userID == u; assert k in a && a[k].userID == u; }
    }
  }

  // CountURLs is the number of deleted entries plus what LoadUrlsByUser answers, summed over all
  // users, and there are no more users than URLs.
  lemma Conservation(data: Data)
    ensures |data| == |set k | k in data && data[k].deleted| + LiveTotal(data, set k | k in data :: data[k].userID)
    ensures |set k | k in data :: data[k].userID| <= |data|
  {
    UsersExact(data);
    assert DeletedKeys(data) == set k | k in data && data[k].deleted;
    LiveTotalCounts(data, Users(data));
    var live := LiveKeysOf(data, Users(data));
    assert data.Keys == DeletedKeys(data) + live;
    assert DeletedKeys(data) !! live;
    UsersBounded(data, data.Keys);
  }

  lemma {:induction false} UsersBounded(data: Data, keys: set<string>)
    requires keys <= data.Keys
    ensures |UsersAmong(data, keys)| <= |keys|
    decreases keys
  {
    if keys == {} {
    } else {
      var x :| x in keys;
      UsersBounded(data, keys - {x});
      OneMoreUser(data, keys - {x}, x);
      assert keys == keys - {x} + {x};
    }
  }
}
