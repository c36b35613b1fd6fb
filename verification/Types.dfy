// The values both storage backends keep, and the order in which they may evolve.
module Types {

  datatype Option<+T> = None | Some(value: T)

  // A stored URL: the value of the in-memory map and, column for column, a row of table urls.
  datatype Entry = Entry(url: string, userID: string, deleted: bool)

  // id -> entry
  type Data = map<string, Entry>

  // Outcomes of StoreURL. Failed stands for any error other than the conflict.
  datatype StoreResult = Stored | Conflict | Failed

  // Outcomes of LoadURL.
  datatype LoadResult = Found(url: string) | Gone | NotFound

  // A URL its owner sees: what findURLsByUser sends.
  predicate IsLive(e: Entry, userID: string) {
    e.userID == userID && !e.deleted
  }

  // The default size of a bufio.Writer.
  const CAPACITY := 4096

  // e may later become f: url and owner are fixed and deletion is one-way.
  ghost predicate MayBecome(e: Entry, f: Entry) {
    e.url == f.url && e.userID == f.userID && (e.deleted ==> f.deleted)
  }

  // a may later become b: no key is lost and every entry evolves as MayBecome says.
  ghost predicate Precedes(a: Data, b: Data) {
    forall k :: k in a ==> k in b && MayBecome(a[k], b[k])
  }

  lemma PrecedesTransitive(a: Data, b: Data, c: Data)
    requires Precedes(a, b) && Precedes(b, c)
    ensures Precedes(a, c)
  {
  }

  // StoreURL of the in-memory store is a LoadOrStore: an existing key is a conflict and nothing changes.
  function StoreEntry(data: Data, id: string, url: string, userID: string): (Data, StoreResult) {
    if id in data then (data, Conflict) else (data[id := Entry(url, userID, false)], Stored)
  }

  // LoadURL of the in-memory store.
  function LoadEntry(data: Data, id: string): LoadResult {
    if id !in data then NotFound else if data[id].deleted then Gone else Found(data[id].url)
  }

  // Immediate deletion: the entries of userID whose id is listed become deleted.
  function MarkDeleted(data: Data, userID: string, ids: seq<string>): Data {
    map k | k in data :: if data[k].userID == userID && k in ids then data[k].(deleted := true) else data[k]
  }

  // The first position of x in s.
  function FirstIndex(s: seq<string>, x: string): (i: nat)
    requires x in s
    ensures i < |s| && s[i] == x && x !in s[..i]
  {
    if s[0] == x then 0 else 1 + FirstIndex(s[1..], x)
  }

  // s without its first x; s itself when x does not occur.
  function RemoveFirst(s: seq<string>, x: string): (r: seq<string>) {
    if x in s then var i := FirstIndex(s, x); s[..i] + s[i + 1..] else s
  }

  lemma RemoveFirstMultiset(s: seq<string>, x: string)
    requires x in s
    ensures multiset(RemoveFirst(s, x)) == multiset(s) - multiset{x}
    ensures |RemoveFirst(s, x)| == |s| - 1
  {
    var i := FirstIndex(s, x);
    assert s == s[..i] + [s[i]] + s[i + 1..];
  }
}
