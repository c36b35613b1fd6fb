// The shortening and redirecting logic of internal/shortener/shortener.go and
// internal/server/httpserver/handlers.go on the in-memory store.
module Handlers {
  import opened Types
  import opened Base64
  import InMemory

  // ---- makeLong ----

  datatype Response = StatusGone | StatusNotFound | Redirect(url: string)

  function MakeLong(r: LoadResult): Response {
    match r
    case Gone => StatusGone
    case NotFound => StatusNotFound
    case Found(url) => if url == "" then StatusNotFound else Redirect(url)
  }

  // GET /{id}: gone exactly for deleted entries, http.Redirect exactly with the url of a live entry.
  lemma MakeLongExact(data: Data, id: string, url: string)
    ensures MakeLong(LoadEntry(data, id)) == StatusGone <==> id in data && data[id].deleted
    ensures MakeLong(LoadEntry(data, id)) == Redirect(url) <==>
            id in data && data[id] == Entry(url, data[id].userID, false) && url != ""
  {
  }

  // A freshly stored URL is what http.Redirect is given for its short form, except that the empty
  // URL, which can be stored, is answered as not found.
  lemma RedirectsBack(data: Data, url: ByteString, userID: string)
    requires StoreEntry(data, Encode(url), url, userID).1 == Stored
    ensures var after := StoreEntry(data, Encode(url), url, userID).0;
            MakeLong(LoadEntry(after, Encode(url))) == Redirect(url) <==> url != ""
  {
  }

  // ---- shortenBatchJSON ----

  datatype Request = Request(correlationID: string, originalURL: ByteString)
  datatype Answer = Answer(correlationID: string, shortURL: string)
  datatype BatchResult = Created(res: seq<Answer>) | ServerError

  function MakeURL(baseURL: string, id: string): string {
    baseURL + "/" + id
  }

  // The n-th URL is stored already or occurs earlier in the batch.
  predicate Clash(data: Data, message: seq<Request>, n: nat)
    requires n < |message|
  {
    || Encode(message[n].originalURL) in data
    || exists i :: 0 <= i < n && message[i].originalURL == message[n].originalURL
  }

  // k is the id of one of the requested URLs.
  predicate Requested(message: seq<Request>, k: string) {
    exists i :: 0 <= i < |message| && Encode(message[i].originalURL) == k
  }

  // after is before plus a live entry of userID for each request of the list, and nothing else.
  ghost predicate Added(before: Data, after: Data, userID: string, message: seq<Request>) {
    && (forall k :: k in after <==> k in before || Requested(message, k))
    && (forall k :: k in before ==> k in after && after[k] == before[k])
    && (forall i :: 0 <= i < |message| ==>
          Encode(message[i].originalURL) in after &&
          after[Encode(message[i].originalURL)] == Entry(message[i].originalURL, userID, false))
  }

  lemma ClashIsStored(before: Data, data: Data, userID: string, message: seq<Request>, n: nat)
    requires n < |message| && Added(before, data, userID, message[..n])
    ensures Encode(message[n].originalURL) in data <==> Clash(before, message, n)
  {
    var url := message[n].originalURL;
    if Encode(url) in data && Encode(url) !in before {
      var i :| 0 <= i < |message[..n]| && Encode(message[..n][i].originalURL) == Encode(url);
      Injective(message[i].originalURL, url);
    }
    if i :| 0 <= i < n && message[i].originalURL == url {
      assert message[..n][i].originalURL == url;
    }
  }

  lemma RequestedMore(message: seq<Request>, more: Request, k: string)
    ensures Requested(message + [more], k) <==> Requested(message, k) || k == Encode(more.originalURL)
  {
    var all := message + [more];
    if Requested(message, k) {
      var i :| 0 <= i < |message| && Encode(message[i].originalURL) == k;
      assert Encode(all[i].originalURL) == k;
    }
    assert all[|message|] == more;
  }

  lemma AddOne(before: Data, data: Data, userID: string, message: seq<Request>, more: Request)
    requires Added(before, data, userID, message) && Encode(more.originalURL) !in data
    ensures Added(before, data[Encode(more.originalURL) := Entry(more.originalURL, userID, false)], userID,
                  message + [more])
  {
    forall k: string
      ensures Requested(message + [more], k) <==> Requested(message, k) || k == Encode(more.originalURL)
    {
      RequestedMore(message, more, k);
    }
  }

  predicate NoClash(data: Data, message: seq<Request>, n: nat)
    requires n <= |message|
  {
    forall i :: 0 <= i < n ==> !Clash(data, message, i)
  }

  // The answers match the requests in order and correlation id.
  predicate Answering(res: seq<Answer>, baseURL: string, message: seq<Request>) {
    && |res| == |message|
    && forall i :: 0 <= i < |res| ==>
         res[i] == Answer(message[i].correlationID, baseURL + "/" + Encode(message[i].originalURL))
  }

  // Run alone, a batch succeeds exactly when no URL clashes; on failure exactly the requests
  // before the first clash were added.
  method ShortenBatch(store: InMemory.Store, baseURL: string, userID: string, message: seq<Request>)
    returns (r: BatchResult)
    modifies store
    ensures r.Created? <==> NoClash(old(store.data), message, |message|)
    ensures r.Created? ==> Added(old(store.data), store.data, userID, message) && Answering(r.res, baseURL, message)
    ensures r.ServerError? ==>
              exists n :: 0 <= n < |message| && Clash(old(store.data), message, n)
                && NoClash(old(store.data), message, n)
                && Added(old(store.data), store.data, userID, message[..n])
  {
    ghost var before := store.data;
    var res: seq<Answer> := [];
    for n := 0 to |message|
      invariant Added(before, store.data, userID, message[..n])
      invariant NoClash(before, message, n)
      invariant Answering(res, baseURL, message[..n])
    {
      var v := message[n];
      var id := Encode(v.originalURL);
      AnswerOne(res, baseURL, message, n);
      res := res + [Answer(v.correlationID, MakeURL(baseURL, id))];
      OneMore(before, store.data, userID, message, n);
      var err := store.StoreURL(id, v.originalURL, userID);
      if err != Stored {
        return ServerError;
      }
    }
    assert message[..|message|] == message;
    return Created(res);
  }

  // One turn of the loop: the request is added, or it is the first to clash.
  lemma OneMore(before: Data, data: Data, userID: string, message: seq<Request>, n: nat)
    requires n < |message| && Added(before, data, userID, message[..n]) && NoClash(before, message, n)
    ensures Encode(message[n].originalURL) in data ==> Clash(before, message, n)
    ensures var v := message[n];
            Encode(v.originalURL) !in data ==>
              && NoClash(before, message, n + 1)
              && Added(before, data[Encode(v.originalURL) := Entry(v.originalURL, userID, false)], userID,
                       message[..n + 1])
  {
    var v := message[n];
    ClashIsStored(before, data, userID, message, n);
    if Encode(v.originalURL) !in data {
      AddOne(before, data, userID, message[..n], v);
      assert message[..n + 1] == message[..n] + [v];
    }
  }

  lemma AnswerOne(res: seq<Answer>, baseURL: string, message: seq<Request>, n: nat)
    requires n < |message| && Answering(res, baseURL, message[..n])
    ensures Answering(res + [Answer(message[n].correlationID, baseURL + "/" + Encode(message[n].originalURL))],
                      baseURL, message[..n + 1])
  {
  }

  // ---- From the answer back to the URL ----

  // What lies behind the last slash.
  function LastSegment(s: string): string {
    if s == "" || s[|s| - 1] == '/' then "" else LastSegment(s[..|s| - 1]) + [s[|s| - 1]]
  }

  // An id has no slash, so it is what lies behind the last one of its short URL.
  lemma {:induction false} SegmentIsId(front: string, id: string)
    requires '/' !in id
    ensures LastSegment(front + "/" + id) == id
    decreases |id|
  {
    var s := front + "/" + id;
    if id == "" {
      assert s[|s| - 1] == '/';
    } else {
      var less := id[..|id| - 1];
      SegmentIsId(front, less);
      assert s[..|s| - 1] == front + "/" + less && s[|s| - 1] == id[|id| - 1];
      assert less + [id[|id| - 1]] == id;
    }
  }

  // Every short URL a batch answers leads back: the id in it redirects to the URL of its request, which
  // now belongs to the caller, unless that URL is empty.
  lemma BatchLeadsBack(before: Data, after: Data, userID: string, baseURL: string, message: seq<Request>,
                       res: seq<Answer>, i: nat)
    requires Added(before, after, userID, message) && Answering(res, baseURL, message) && i < |message|
    ensures res[i].correlationID == message[i].correlationID
    ensures var id, url := LastSegment(res[i].shortURL), message[i].originalURL;
            && res[i].shortURL == baseURL + "/" + id
            && id in after && after[id] == Entry(url, userID, false)
            && (MakeLong(LoadEntry(after, id)) == Redirect(url) <==> url != "")
  {
    SegmentIsId(baseURL, Encode(message[i].originalURL));
  }

  // The short URL of "http" on a server on this machine.
  lemma ShortURLVector(res: seq<Answer>, message: seq<Request>)
    requires message == [Request("1", "http")] && Answering(res, "http://localhost:8080", message)
    ensures res == [Answer("1", "http://localhost:8080/aHR0cA")]
  {
    UrlVector();
    assert "http://localhost:8080" + "/" + "aHR0cA" == "http://localhost:8080/aHR0cA";
  }
}
