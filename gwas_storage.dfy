/**
 * js/gwas-storage.js: load a JSON document through a persistent key/value
 * cache that is revalidated with an ETag (`If-None-Match`, section 3.2 of
 * RFC 7232), reporting download progress.
 *
 * The browser's IndexedDB store is the class GwasStore over a map; `fetch` is
 * the parameter `server`, a function from the request sent to the response
 * received, whose body is the sequence of chunks the stream reader yields;
 * `TextDecoder` and `JSON.parse` are the parameters `textDecode` (total) and
 * `jsonParse` (None where JSON.parse throws). The progress callback is
 * modelled by the sequence of values it is called with.
 */
module GwasStorage {
  import opened Wrappers

  newtype Byte = x: int | 0 <= x < 0x100

  type Chunk = seq<Byte>

  /** A parsed JSON document. */
  datatype Json =
    | JNull
    | JBool(b: bool)
    | JNumber(n: int)
    | JString(s: string)
    | JArray(items: seq<Json>)
    | JObject(members: seq<(string, Json)>)

  /** The value stored under a key: the document and the ETag it came with. */
  datatype Record = Record(data: Json, etag: Option<string>)

  /** One entry of the configuration table: a storage key and a remote URL. */
  datatype Target = Target(key: string, url: string)

  /** What is sent: the URL and the request headers. */
  datatype Request = Request(url: string, headers: map<string, string>)

  /**
   * What comes back: the status, the Content-Length header as `parseInt`
   * reads it (None when absent, empty or not a number; a leading minus sign
   * gives a negative value), the ETag header and the body chunks in the
   * order the reader yields them.
   */
  datatype Response = Response(status: int, contentLength: Option<int>, etag: Option<string>, body: seq<Chunk>)

  /** A freshly fetched document and the ETag of the response. */
  datatype Fetched = Fetched(data: Json, etag: Option<string>)

  /** What a load can throw. */
  datatype Error =
    | UnknownTarget(target: string) // `keys_and_urls[target]` is undefined
    | HttpError(status: int)        // "Fetch failed: <status>"
    | ParseError                    // JSON.parse rejected the body text
    | DataError(target: string)     // an inherited name: `getFromDB(db, undefined)` rejects
    | NullBody                      // 204 or 205: `response.body.getReader()` of null
    | NoCachedRecord                // 304 with nothing cached: `cached.data` of undefined

  const IfNoneMatchHeader := "If-None-Match"

  const BucketUrl := "https://ieup4.objectstorage.uk-london-1.oci.customer-oci.com/p/sigwHf-vsYcWCJ5YUAvRCxYKPzHlc4LWNljUJmyzO7beGE9n2ctwzLeCidDDG-Uh/n/ieup4/b/igd/o/"

  /** The fixed `keys_and_urls` table. */
  const KeysAndUrls: map<string, Target> := map[
    "gwasinfo" := Target("gwasinfo.json", BucketUrl + "gwasinfo.json"),
    "batches" := Target("gwasinfo_batches.json", BucketUrl + "gwasinfo_batches.json")
  ]

  /**
   * The names every plain object inherits from `Object.prototype`. Indexing
   * the table with one of them yields that inherited value, whose `key` is
   * undefined, rather than undefined itself.
   */
  const InheritedNames: set<string> := {
    "constructor", "hasOwnProperty", "isPrototypeOf", "propertyIsEnumerable",
    "toLocaleString", "toString", "valueOf", "__proto__",
    "__defineGetter__", "__defineSetter__", "__lookupGetter__", "__lookupSetter__"
  }

  /**
   * `keys_and_urls[target].key`: only `gwasinfo` and `batches` exist, with
   * distinct keys; an inherited name reaches the store with an undefined key
   * (a DataError); any other name throws a TypeError before that.
   */
  function LookupTarget(target: string): (r: Result<Target, Error>)
    ensures r.Ok? <==> target == "gwasinfo" || target == "batches"
    ensures target in InheritedNames ==> r == Err(DataError(target))
    ensures r.Err? && target !in InheritedNames ==> r.error == UnknownTarget(target)
    ensures target == "gwasinfo" ==> r == Ok(Target("gwasinfo.json", BucketUrl + "gwasinfo.json"))
    ensures target == "batches" ==> r == Ok(Target("gwasinfo_batches.json", BucketUrl + "gwasinfo_batches.json"))
  {
    if target in KeysAndUrls then Ok(KeysAndUrls[target])
    else if target in InheritedNames then Err(DataError(target))
    else Err(UnknownTarget(target))
  }

  /** JavaScript truthiness of a string-or-null: present and non-empty. */
  predicate Truthy(s: Option<string>) {
    s.Some? && s.value != ""
  }

  /** `cached?.etag || null`. */
  function CachedEtag(cached: Option<Record>): (e: Option<string>)
    ensures e.Some? <==> cached.Some? && Truthy(cached.value.etag)
    ensures e.Some? ==> e.value == cached.value.etag.value && e.value != ""
  {
    if cached.Some? && Truthy(cached.value.etag) then cached.value.etag else None
  }

  /** `cachedEtag ? { 'If-None-Match': cachedEtag } : {}`. */
  function ConditionalHeaders(cachedEtag: Option<string>): (h: map<string, string>)
    ensures h.Keys <= {IfNoneMatchHeader}
    ensures IfNoneMatchHeader in h <==> Truthy(cachedEtag)
    ensures IfNoneMatchHeader in h ==> h[IfNoneMatchHeader] == cachedEtag.value
  {
    if Truthy(cachedEtag) then map[IfNoneMatchHeader := cachedEtag.value] else map[]
  }

  /** `response.ok`: a status in the range 200-299, the 2xx class; 304 is never ok. */
  predicate IsOk(status: int)
    ensures IsOk(status) <==> status / 100 == 2
    ensures IsOk(status) ==> status != 304
  {
    200 <= status <= 299
  }

  // ---------------------------------------------------------------------
  // Chunks, their total length and their concatenation
  // ---------------------------------------------------------------------

  /** `received` after the chunks: the number of bytes in them. */
  function TotalLength(chunks: seq<Chunk>): nat {
    if chunks == [] then 0 else TotalLength(chunks[..|chunks| - 1]) + |chunks[|chunks| - 1]|
  }

  /** Every chunk counts in full, and the total is zero exactly when every chunk is empty. */
  lemma {:induction false} TotalLengthCountsEveryChunk(chunks: seq<Chunk>)
    ensures forall k :: 0 <= k < |chunks| ==> |chunks[k]| <= TotalLength(chunks)
    ensures TotalLength(chunks) == 0 <==> forall k :: 0 <= k < |chunks| ==> chunks[k] == []
  {
    if chunks != [] {
      var init := chunks[..|chunks| - 1];
      TotalLengthCountsEveryChunk(init);
      assert forall k :: 0 <= k < |init| ==> init[k] == chunks[k];
    }
  }

  /** The chunks joined in receipt order. */
  function Concat(chunks: seq<Chunk>): (bytes: seq<Byte>)
    ensures |bytes| == TotalLength(chunks)
  {
    if chunks == [] then [] else Concat(chunks[..|chunks| - 1]) + chunks[|chunks| - 1]
  }

  /** A longer prefix of the chunks holds at least as many bytes. */
  lemma {:induction false} TotalLengthMonotone(chunks: seq<Chunk>, i: nat, j: nat)
    requires i <= j <= |chunks|
    ensures TotalLength(chunks[..i]) <= TotalLength(chunks[..j])
  {
    if i < j {
      assert chunks[..j][..j - 1] == chunks[..j - 1];
      TotalLengthMonotone(chunks, i, j - 1);
    }
  }

  // ---------------------------------------------------------------------
  // Progress
  // ---------------------------------------------------------------------

  /**
   * `Math.floor((received / total) * 100)`, in exact integer arithmetic: the
   * floor of received * 100 / total, for either sign of total.
   */
  function Percent(received: nat, total: int): (p: int)
    requires total != 0
    ensures total > 0 ==> p * total <= received * 100 < (p + 1) * total
    ensures total < 0 ==> (p + 1) * total < received * 100 <= p * total
  {
    if total > 0 then received * 100 / total
    else
      var q := -(received * 100) / -total;
      assert q * -total <= -(received * 100) < (q + 1) * -total;
      q
  }

  /**
   * `total && onProgress`: a callback and a declared length that is truthy,
   * which rules out an absent, unparsable or zero Content-Length.
   */
  predicate ReportsProgress(total: Option<int>, hasCallback: bool) {
    hasCallback && total.Some? && total.value != 0
  }

  /** The value reported after each chunk: the percentage of the bytes received so far. */
  function ProgressValues(chunks: seq<Chunk>, total: int): (ps: seq<int>)
    requires total != 0
    ensures |ps| == |chunks|
    ensures forall k :: 0 <= k < |chunks| ==> ps[k] == Percent(TotalLength(chunks[..k + 1]), total)
  {
    if chunks == [] then []
    else
      var init := chunks[..|chunks| - 1];
      assert forall m :: 1 <= m <= |init| ==> init[..m] == chunks[..m];
      assert chunks[..|chunks|] == chunks;
      ProgressValues(init, total) + [Percent(TotalLength(chunks), total)]
  }

  /** The sequence of callback values a successful fetch of `response` produces. */
  function ProgressTrace(response: Response, hasCallback: bool): (ps: seq<int>)
    ensures |ps| == if ReportsProgress(response.contentLength, hasCallback) then |response.body| else 0
  {
    if ReportsProgress(response.contentLength, hasCallback)
    then ProgressValues(response.body, response.contentLength.value)
    else []
  }

  /** Multiplying by a non-negative factor keeps order; by a non-positive one, reverses it. */
  lemma MulMonotone(x: int, y: int, c: int)
    requires x <= y
    ensures c >= 0 ==> x * c <= y * c
    ensures c <= 0 ==> y * c <= x * c
  {
  }

  /** More bytes never report a smaller percentage. */
  lemma PercentMonotone(a: nat, b: nat, total: int)
    requires total > 0 && a <= b
    ensures Percent(a, total) <= Percent(b, total)
  {
    var qa, qb := Percent(a, total), Percent(b, total);
    if qb < qa {
      MulMonotone(qb + 1, qa, total);
      assert false;
    }
  }

  /** Against a negative declared length, more bytes never report a larger value. */
  lemma PercentAntitone(a: nat, b: nat, total: int)
    requires total < 0 && a <= b
    ensures Percent(b, total) <= Percent(a, total)
  {
    var qa, qb := Percent(a, total), Percent(b, total);
    if qa < qb {
      MulMonotone(qa + 1, qb, total);
      assert false;
    }
  }

  /** Against a negative declared length, no value reported is positive. */
  lemma PercentNegative(received: nat, total: int)
    requires total < 0
    ensures Percent(received, total) <= 0
  {
    var q := Percent(received, total);
    if q > 0 {
      MulMonotone(1, q, total);
      assert false;
    }
  }

  /** Progress never goes backwards. */
  lemma ProgressNonDecreasing(chunks: seq<Chunk>, total: int, i: nat, j: nat)
    requires total > 0 && i <= j < |chunks|
    ensures ProgressValues(chunks, total)[i] <= ProgressValues(chunks, total)[j]
  {
    TotalLengthMonotone(chunks, i + 1, j + 1);
    PercentMonotone(TotalLength(chunks[..i + 1]), TotalLength(chunks[..j + 1]), total);
  }

  /**
   * A negative Content-Length is truthy, so progress is reported: values that
   * never increase and are never positive.
   */
  lemma ProgressNegativeLength(chunks: seq<Chunk>, total: int, i: nat, j: nat)
    requires total < 0 && i <= j < |chunks|
    ensures ProgressValues(chunks, total)[j] <= ProgressValues(chunks, total)[i] <= 0
  {
    TotalLengthMonotone(chunks, i + 1, j + 1);
    PercentAntitone(TotalLength(chunks[..i + 1]), TotalLength(chunks[..j + 1]), total);
    PercentNegative(TotalLength(chunks[..i + 1]), total);
  }

  /** One byte against a declared length of -1 reports -100. */
  lemma ProgressNegativeExample()
    ensures ProgressValues([[0]], -1) == [-100]
  {
    var chunks: seq<Chunk> := [[0]];
    assert chunks[..1] == chunks;
  }

  /** When Content-Length is exact, the last value reported is 100. */
  lemma ProgressEndsAtHundred(chunks: seq<Chunk>, total: int)
    requires total != 0 && |chunks| > 0 && TotalLength(chunks) == total
    ensures ProgressValues(chunks, total)[|chunks| - 1] == 100
  {
    assert chunks[..|chunks|] == chunks;
    PercentOfTotal(total);
  }

  /** Receiving exactly the declared length reports 100. */
  lemma PercentOfTotal(total: int)
    requires total > 0
    ensures Percent(total, total) == 100
  {
  }

  /** While no more bytes than declared have arrived, no value exceeds 100. */
  lemma ProgressAtMostHundred(chunks: seq<Chunk>, total: int, k: nat)
    requires total > 0 && k < |chunks| && TotalLength(chunks) <= total
    ensures ProgressValues(chunks, total)[k] <= 100
  {
    TotalLengthMonotone(chunks, k + 1, |chunks|);
    assert chunks[..|chunks|] == chunks;
    PercentMonotone(TotalLength(chunks[..k + 1]), total, total);
    PercentOfTotal(total);
  }

  /** Values are not clamped: two bytes against a declared length of one report 200. */
  lemma ProgressNotClamped()
    ensures ProgressValues([[0, 0]], 1) == [200]
  {
    var chunks: seq<Chunk> := [[0, 0]];
    assert chunks[..1] == chunks;
  }

  // ---------------------------------------------------------------------
  // fetchWithProgress
  // ---------------------------------------------------------------------

  /**
   * `fullArray.set(chunk, position)`: copies src into dst from offset on and
   * leaves every other element alone.
   */
  method SetAt(dst: array<Byte>, src: seq<Byte>, offset: nat)
    requires offset + |src| <= dst.Length
    modifies dst
    ensures dst[..offset] == old(dst[..offset])
    ensures dst[offset..offset + |src|] == src
    ensures dst[offset + |src|..] == old(dst[offset + |src|..])
  {
    for t := 0 to |src|
      invariant dst[..offset] == old(dst[..offset])
      invariant dst[offset..offset + t] == src[..t]
      invariant dst[offset + |src|..] == old(dst[offset + |src|..])
    {
      dst[offset + t] := src[t];
    }
  }

  /**
   * The reassembly: a buffer of `received` bytes filled chunk by chunk at an
   * advancing position; the result is the chunks joined in order.
   */
  method Reassemble(chunks: seq<Chunk>, received: nat) returns (bytes: seq<Byte>)
    requires received == TotalLength(chunks)
    ensures bytes == Concat(chunks)
    ensures |bytes| == received
  {
    var fullArray := new Byte[received];
    var position := 0;
    for j := 0 to |chunks|
      invariant position == TotalLength(chunks[..j])
      invariant position <= received
      invariant fullArray[..position] == Concat(chunks[..j])
    {
      var chunk := chunks[j];
      assert chunks[..j + 1][..j] == chunks[..j];
      TotalLengthMonotone(chunks, j + 1, |chunks|);
      assert chunks[..|chunks|] == chunks;
      SetAt(fullArray, chunk, position);
      assert fullArray[..position + |chunk|] == fullArray[..position] + fullArray[position..position + |chunk|];
      position := position + |chunk|;
    }
    assert chunks[..|chunks|] == chunks;
    bytes := fullArray[..];
  }

  /** Joining the chunks of two runs is joining each and then the two. */
  lemma {:induction false} ConcatAppend(a: seq<Chunk>, b: seq<Chunk>)
    ensures Concat(a + b) == Concat(a) + Concat(b)
    decreases |b|
  {
    if b == [] {
      assert a + b == a;
    } else {
      var c, last := b[..|b| - 1], b[|b| - 1];
      assert (a + b)[..|a + b| - 1] == a + c;
      assert (a + b)[|a + b| - 1] == last;
      assert Concat(a + b) == Concat(a + c) + last;
      ConcatAppend(a, c);
      assert Concat(b) == Concat(c) + last;
    }
  }

  /**
   * `JSON.parse(new TextDecoder('utf-8').decode(fullArray))`: the document the
   * body parses to, if it parses. Only the bytes count, not how the stream
   * cut them into chunks.
   */
  function ParseBody(response: Response, textDecode: seq<Byte> -> string, jsonParse: string -> Option<Json>): (r: Option<Json>)
    ensures |response.body| == 1 ==> r == jsonParse(textDecode(response.body[0]))
    ensures response.body == [] ==> r == jsonParse(textDecode([]))
  {
    assert response.body[..0] == [];
    assert |response.body| == 1 ==> Concat(response.body) == [] + response.body[0] == response.body[0];
    jsonParse(textDecode(Concat(response.body)))
  }

  /** Two responses whose chunks join to the same bytes parse alike. */
  lemma ParseBodyIgnoresChunking(
    r1: Response, r2: Response, textDecode: seq<Byte> -> string, jsonParse: string -> Option<Json>, split: nat)
    requires split <= |r1.body| && r2.body == r1.body[..split] + [Concat(r1.body[split..])]
    ensures ParseBody(r1, textDecode, jsonParse) == ParseBody(r2, textDecode, jsonParse)
  {
    var tail := r1.body[split..];
    assert r1.body == r1.body[..split] + tail;
    ConcatAppend(r1.body[..split], tail);
    ConcatAppend(r1.body[..split], [Concat(tail)]);
    assert [Concat(tail)][..0] == [];
  }

  /**
   * The successful statuses whose response has a null body, so that asking
   * it for a reader throws a TypeError.
   */
  predicate NullBodyStatus(status: int)
    ensures NullBodyStatus(status) ==> IsOk(status) && status != 200
  {
    status == 204 || status == 205
  }

  /**
   * `fetchWithProgress(url, onProgress, cachedEtag)`. `sent` is the request
   * made, `outcome` is Ok(None) for a 304, Ok(Some(..)) for a fetched
   * document, Err(..) for what is thrown; `progress` lists the callback
   * invocations in order.
   */
  method FetchWithProgress(
    url: string, hasCallback: bool, cachedEtag: Option<string>,
    server: Request -> Response, textDecode: seq<Byte> -> string, jsonParse: string -> Option<Json>)
    returns (sent: Request, outcome: Result<Option<Fetched>, Error>, progress: seq<int>)
    ensures sent == Request(url, ConditionalHeaders(cachedEtag))
    ensures server(sent).status == 304 ==> outcome == Ok(None) && progress == []
    ensures server(sent).status != 304 && !IsOk(server(sent).status) ==>
      outcome == Err(HttpError(server(sent).status)) && progress == []
    ensures NullBodyStatus(server(sent).status) ==> outcome == Err(NullBody) && progress == []
    ensures IsOk(server(sent).status) && !NullBodyStatus(server(sent).status) ==>
      progress == ProgressTrace(server(sent), hasCallback)
    ensures IsOk(server(sent).status) && !NullBodyStatus(server(sent).status) ==>
      outcome == match ParseBody(server(sent), textDecode, jsonParse)
                 case None => Err(ParseError)
                 case Some(data) => Ok(Some(Fetched(data, server(sent).etag)))
  {
    sent := Request(url, ConditionalHeaders(cachedEtag));
    var response := server(sent);
    progress := [];
    if response.status == 304 {
      return sent, Ok(None), progress;
    }
    if !IsOk(response.status) {
      return sent, Err(HttpError(response.status)), progress;
    }
    var total := response.contentLength;
    if NullBodyStatus(response.status) {
      return sent, Err(NullBody), progress;
    }
    var reports := ReportsProgress(total, hasCallback);
    var received := 0;
    var chunks: seq<Chunk> := [];
    var i := 0;
    while i < |response.body|
      invariant 0 <= i <= |response.body|
      invariant chunks == response.body[..i]
      invariant received == TotalLength(chunks)
      invariant progress == if reports then ProgressValues(chunks, total.value) else []
    {
      var value := response.body[i];
      assert (chunks + [value])[..|chunks|] == chunks;
      chunks := chunks + [value];
      received := received + |value|;
      if reports {
        progress := progress + [Percent(received, total.value)];
      }
      i := i + 1;
    }
    assert response.body[..i] == response.body;
    var bytes := Reassemble(chunks, received);
    var text := textDecode(bytes);
    match jsonParse(text)
    case None =>
      outcome := Err(ParseError);
    case Some(data) =>
      outcome := Ok(Some(Fetched(data, response.etag)));
  }

  // ---------------------------------------------------------------------
  // The persistent store and loadData
  // ---------------------------------------------------------------------

  /**
   * The `GwasStore` object store of the `GwasDB` database: string keys to
   * records, read with `getFromDB` and overwritten with `putToDB`.
   */
  class GwasStore {
    var entries: map<string, Record>

    /** The database as `openDB` finds it. */
    constructor (initial: map<string, Record>)
      ensures entries == initial
    {
      entries := initial;
    }

    /** `getFromDB(db, key)`: the record, or undefined on a first run. */
    function Get(key: string): (r: Option<Record>)
      reads this
      ensures r.Some? <==> key in entries
      ensures r.Some? ==> r.value == entries[key]
    {
      if key in entries then Some(entries[key]) else None
    }

    /** `putToDB(db, key, value)`: overwrites the whole record at `key` and nothing else. */
    method Put(key: string, value: Record)
      modifies this
      ensures entries == old(entries)[key := value]
      ensures Get(key) == Some(value)
      ensures forall k :: k != key ==> Get(k) == old(Get(k))
    {
      entries := entries[key := value];
    }
  }

  /**
   * `loadData(target, onProgress)`: look the target up, read its cached
   * record, fetch with the cached ETag as validator, then either return the
   * cached document (304) or store `{data, etag}` under the target's key and
   * return the new document. Every failure leaves the store as it was.
   */
  method LoadData(
    db: GwasStore, target: string, hasCallback: bool,
    server: Request -> Response, textDecode: seq<Byte> -> string, jsonParse: string -> Option<Json>)
    returns (result: Result<Json, Error>, sent: Option<Request>, progress: seq<int>)
    modifies db
    // an unknown target fails before any request
    ensures target !in KeysAndUrls && target !in InheritedNames ==>
      result == Err(UnknownTarget(target)) && sent == None && progress == [] && db.entries == old(db.entries)
    // an inherited name fails in the store lookup, before any request
    ensures target in InheritedNames ==>
      result == Err(DataError(target)) && sent == None && progress == [] && db.entries == old(db.entries)
    // the request is conditional exactly when a truthy ETag is cached
    ensures target in KeysAndUrls ==>
      sent == Some(Request(KeysAndUrls[target].url, ConditionalHeaders(CachedEtag(old(db.Get(KeysAndUrls[target].key))))))
    // 304: the cached document, unchanged store, no progress
    ensures sent.Some? && server(sent.value).status == 304 ==>
      && progress == []
      && db.entries == old(db.entries)
      && result == match old(db.Get(KeysAndUrls[target].key))
                   case Some(cached) => Ok(cached.data)
                   case None => Err(NoCachedRecord)
    // any other failing status: thrown with the status, unchanged store
    ensures sent.Some? && server(sent.value).status != 304 && !IsOk(server(sent.value).status) ==>
      result == Err(HttpError(server(sent.value).status)) && progress == [] && db.entries == old(db.entries)
    // 204 or 205: no body to read, unchanged store, no progress
    ensures sent.Some? && NullBodyStatus(server(sent.value).status) ==>
      result == Err(NullBody) && progress == [] && db.entries == old(db.entries)
    // a successful status: progress per chunk, then parse; a parse failure writes nothing
    ensures sent.Some? && IsOk(server(sent.value).status) && !NullBodyStatus(server(sent.value).status) ==>
      && progress == ProgressTrace(server(sent.value), hasCallback)
      && match ParseBody(server(sent.value), textDecode, jsonParse)
         case None =>
           result == Err(ParseError) && db.entries == old(db.entries)
         case Some(data) =>
           && result == Ok(data)
           && db.entries == old(db.entries)[KeysAndUrls[target].key := Record(data, server(sent.value).etag)]
    // at most the target's key changes
    ensures forall k :: (target !in KeysAndUrls || k != KeysAndUrls[target].key) ==> db.Get(k) == old(db.Get(k))
  {
    match LookupTarget(target)
    case Err(e) =>
      return Err(e), None, [];
    case Ok(t) =>
      var cached := db.Get(t.key);
      var cachedEtag := CachedEtag(cached);
      var request, fetched, trace := FetchWithProgress(t.url, hasCallback, cachedEtag, server, textDecode, jsonParse);
      sent, progress := Some(request), trace;
      match fetched
      case Err(e) =>
        result := Err(e);
      case Ok(None) =>
        result := if cached.Some? then Ok(cached.value.data) else Err(NoCachedRecord);
      case Ok(Some(f)) =>
        db.Put(t.key, Record(f.data, f.etag));
        result := Ok(f.data);
  }

  /**
   * After a fetch stored a record with a truthy ETag, the next load of that
   * target sends it back verbatim as `If-None-Match`; with a missing or empty
   * ETag the next request is unconditional.
   */
  lemma StoredEtagRevalidates(data: Json, etag: Option<string>)
    ensures Truthy(etag) ==>
      ConditionalHeaders(CachedEtag(Some(Record(data, etag)))) == map[IfNoneMatchHeader := etag.value]
    ensures !Truthy(etag) ==> ConditionalHeaders(CachedEtag(Some(Record(data, etag)))) == map[]
  {
  }

  /** With nothing cached the request carries no header. */
  lemma FirstLoadIsUnconditional()
    ensures ConditionalHeaders(CachedEtag(None)) == map[]
  {
  }
}
