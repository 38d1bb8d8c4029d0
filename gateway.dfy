/**
 * The request handler of the gateway: the small helpers, the status
 * recorder that wraps the server's response writer, and `proxy`, which turns
 * an object's attributes and bytes into a response.
 */
module Gateway {
  import opened Wrappers
  import opened GoStrings
  import opened GoTime
  import opened NetHttp
  import opened Storage
  import opened Policy

  /** The two flags the handler reads on every request. */
  datatype Flags = Flags(blockIf: string, passThrough: string)

  /**
   * The storage object a request names, seen through the two calls the
   * handler makes on it: `Attrs`, and `NewReader` after
   * `ReadCompressed(gzip)` (the flag chooses whether stored gzip bytes are
   * served as they are).
   */
  datatype Object = Object(attrs: Result<ObjectAttrs, Error>, open: bool -> Result<Reader, Error>)

  /** HTTP date handling: `http.ParseTime`, and rendering in `http.TimeFormat`; both opaque. */
  datatype Dates = Dates(parse: string -> Option<Time>, format: Time -> string)

  /** Status, header map and body of a finished response. */
  datatype Response = Response(status: int, header: HeaderMap, body: string)

  /**
   * `wrapResponseWriter`: the server's writer plus the status last passed
   * to `WriteHeader`, which the access log reports.
   */
  class WrapResponseWriter {
    const inner: ResponseWriter
    var status: int

    /** The wrapper `wrapper` builds: nothing written yet, so the status reads 200. */
    constructor (inner: ResponseWriter)
      ensures this.inner == inner && status == StatusOK
    {
      this.inner := inner;
      status := StatusOK;
    }

    /** Passes the status to the server's writer and records it. */
    method WriteHeader(status: int)
      modifies this, inner
      ensures this.status == status
      ensures inner.code == if old(inner.code).None? then Some(status) else old(inner.code)
      ensures inner.header == old(inner.header) && inner.body == old(inner.body)
    {
      inner.WriteHeader(status);
      this.status := status;
    }
  }

  /** The status `handleError` answers an error with: 404 for a missing object, 500 for anything else. */
  function StatusFor(e: Error): (code: int)
    ensures code == StatusNotFound <==> e == ObjectNotExist
    ensures code == StatusInternalServerError <==> e != ObjectNotExist
  {
    if e == ObjectNotExist then StatusNotFound else StatusInternalServerError
  }

  /** The two headers `http.Error` sets before it writes the status. */
  function ErrorHeader(h: HeaderMap): HeaderMap
  {
    Set(Set(h, "Content-Type", "text/plain; charset=utf-8"), "X-Content-Type-Options", "nosniff")
  }

  /** `http.Error(w, text, code)`, with `w` the status-recording wrapper. */
  method HttpError(w: WrapResponseWriter, text: string, code: int)
    modifies w, w.inner
    ensures w.status == code
    ensures w.inner.header == ErrorHeader(old(w.inner.header))
    ensures w.inner.code == if old(w.inner.code).None? then Some(code) else old(w.inner.code)
    ensures w.inner.body == old(w.inner.body) + (text + "\n")
  {
    w.inner.header := ErrorHeader(w.inner.header);
    w.WriteHeader(code);
    w.inner.Write(text + "\n");
  }

  /** `handleError`: a nil error (None) writes nothing; any other is answered by `http.Error`. */
  method HandleError(w: WrapResponseWriter, err: Option<Error>)
    modifies w, w.inner
    ensures err.None? ==> unchanged(w, w.inner)
    ensures err.Some? ==> w.status == StatusFor(err.value)
    ensures err.Some? ==> w.inner.header == ErrorHeader(old(w.inner.header))
    ensures err.Some? ==> w.inner.code == if old(w.inner.code).None? then Some(StatusFor(err.value)) else old(w.inner.code)
    ensures err.Some? ==> w.inner.body == old(w.inner.body) + (ErrorText(err.value) + "\n")
  {
    if err.Some? {
      if err.value == ObjectNotExist {
        HttpError(w, ErrorText(err.value), StatusNotFound);
      } else {
        HttpError(w, ErrorText(err.value), StatusInternalServerError);
      }
      return;
    }
  }

  /** `header(r, key)`: the first value of `key` and true, or "" and false when there is none. */
  function Header(r: Request, key: string): (found: (string, bool))
    ensures found.1 <==> |RequestValues(r, key)| > 0
    ensures found.1 ==> found.0 == RequestValues(r, key)[0]
    ensures !found.1 ==> found.0 == ""
  {
    if r.header.None? then ("", false)
    else
      var candidate := Values(r.header.value, key);
      if |candidate| > 0 then (candidate[0], true) else ("", false)
  }

  /** `header` yields the same string as `Header.Get` on the request. */
  lemma HeaderAgreesWithGet(r: Request, key: string)
    ensures Header(r, key).0 == RequestGet(r, key)
  {
  }

  /** The line `setStrHeader` adds: one, exactly when the value is non-empty. */
  function StrHeader(key: string, value: string): (lines: seq<HeaderLine>)
    ensures |lines| <= 1
    ensures lines != [] <==> value != ""
    ensures lines != [] ==> lines[0] == (key, value)
  {
    if value != "" then [(key, value)] else []
  }

  /** The line `setIntHeader` adds: one, exactly when the value is positive, reading back as that value. */
  function IntHeader(key: string, value: int): (lines: seq<HeaderLine>)
    ensures |lines| <= 1
    ensures lines != [] <==> value > 0
    ensures lines != [] ==> lines[0].0 == key && ParseInt(lines[0].1) == Some(value)
  {
    if value > 0 then
      FormatIntRoundTrip(value);
      [(key, FormatInt(value))]
    else []
  }

  /** The line `setTimeHeader` adds: one, exactly when the time is not the zero time. */
  function TimeHeader(key: string, value: Time, format: Time -> string): (lines: seq<HeaderLine>)
    ensures |lines| <= 1
    ensures lines != [] <==> !IsZero(value)
    ensures lines != [] ==> lines[0] == (key, format(value))
  {
    if !IsZero(value) then [(key, format(value))] else []
  }

  /** `setStrHeader`. */
  method SetStrHeader(w: WrapResponseWriter, key: string, value: string)
    modifies w.inner
    ensures w.inner.header == AddAll(old(w.inner.header), StrHeader(key, value))
    ensures w.inner.code == old(w.inner.code) && w.inner.body == old(w.inner.body)
  {
    if value != "" {
      w.inner.header := Add(w.inner.header, key, value);
    }
  }

  /** `setIntHeader`. */
  method SetIntHeader(w: WrapResponseWriter, key: string, value: int)
    modifies w.inner
    ensures w.inner.header == AddAll(old(w.inner.header), IntHeader(key, value))
    ensures w.inner.code == old(w.inner.code) && w.inner.body == old(w.inner.body)
  {
    if value > 0 {
      w.inner.header := Add(w.inner.header, key, FormatInt(value));
    }
  }

  /** `setTimeHeader`, with `format` rendering a time in `http.TimeFormat` (UTC). */
  method SetTimeHeader(w: WrapResponseWriter, key: string, value: Time, format: Time -> string)
    modifies w.inner
    ensures w.inner.header == AddAll(old(w.inner.header), TimeHeader(key, value, format))
    ensures w.inner.code == old(w.inner.code) && w.inner.body == old(w.inner.body)
  {
    if !IsZero(value) {
      w.inner.header := Add(w.inner.header, key, format(value));
    }
  }

  /** The prefix a passed-through metadata key gets as a header name. */
  const MetaPrefix := "X-Goog-Meta-"

  /** `prefix + k`: the header name for metadata key `k`; the key can be read back from it. */
  function MetaHeaderName(k: string): (name: string)
    ensures MetaPrefix <= name && name[|MetaPrefix|..] == k
  {
    MetaPrefix + k
  }

  /** The metadata entries that become headers: whitelisted keys with non-empty values. */
  function Exposed(metadata: map<string, string>, keys: set<string>): map<string, string>
  {
    map k | k in metadata && k in keys && metadata[k] != "" :: metadata[k]
  }

  /** Every name with the prefix is the header name of the key that follows the prefix. */
  lemma MetaHeaderNameOf(name: string)
    requires MetaPrefix <= name
    ensures name == MetaHeaderName(name[|MetaPrefix|..])
  {
    assert name == name[..|MetaPrefix|] + name[|MetaPrefix|..];
  }

  /** The value an exposed entry contributes to header `name`, if `name` is a metadata header name. */
  function MetaValue(exposed: map<string, string>, name: string): seq<string>
  {
    if MetaPrefix <= name && name[|MetaPrefix|..] in exposed then [exposed[name[|MetaPrefix|..]]] else []
  }

  /** `h` with one `MetaHeaderName(k)` value appended for each exposed entry `(k, v)`. */
  function WithMetadataHeaders(h: HeaderMap, exposed: map<string, string>): HeaderMap
  {
    h + map k | k in exposed :: MetaHeaderName(k) := Values(h, MetaHeaderName(k)) + [exposed[k]]
  }

  /** Every header gains exactly the value its exposed entry contributes, and a name is present once it has any. */
  lemma WithMetadataHeadersValues(h: HeaderMap, exposed: map<string, string>, name: string)
    ensures Values(WithMetadataHeaders(h, exposed), name) == Values(h, name) + MetaValue(exposed, name)
    ensures name in WithMetadataHeaders(h, exposed) <==> name in h || MetaValue(exposed, name) != []
  {
    if MetaPrefix <= name && name[|MetaPrefix|..] in exposed {
      var k := name[|MetaPrefix|..];
      assert name == MetaHeaderName(k);
    }
  }

  /** Each metadata header name gains the entry's value if the entry is exposed, and nothing otherwise. */
  lemma MetadataHeaderValues(h: HeaderMap, exposed: map<string, string>, k: string)
    ensures Values(WithMetadataHeaders(h, exposed), MetaHeaderName(k)) ==
      Values(h, MetaHeaderName(k)) + (if k in exposed then [exposed[k]] else [])
  {
    WithMetadataHeadersValues(h, exposed, MetaHeaderName(k));
  }

  /** Header names outside the metadata prefix are left as they were. */
  lemma NonMetadataHeaderUnchanged(h: HeaderMap, exposed: map<string, string>, key: string)
    requires !(MetaPrefix <= key)
    ensures Values(WithMetadataHeaders(h, exposed), key) == Values(h, key)
  {
    WithMetadataHeadersValues(h, exposed, key);
  }

  /** Pointwise form of `WithMetadataHeadersStep`. */
  lemma WithMetadataHeadersStepAt(h: HeaderMap, exposed: map<string, string>, k: string, v: string, name: string)
    requires k !in exposed
    ensures var added := Add(WithMetadataHeaders(h, exposed), MetaHeaderName(k), v);
      && (name in WithMetadataHeaders(h, exposed[k := v]) <==> name in added)
      && Values(WithMetadataHeaders(h, exposed[k := v]), name) == Values(added, name)
  {
    WithMetadataHeadersValues(h, exposed, name);
    WithMetadataHeadersValues(h, exposed[k := v], name);
    AddValues(WithMetadataHeaders(h, exposed), MetaHeaderName(k), v, name);
    if MetaPrefix <= name {
      MetaHeaderNameOf(name);
    }
  }

  /** Exposing one more entry is one more `Add`. */
  lemma WithMetadataHeadersStep(h: HeaderMap, exposed: map<string, string>, k: string, v: string)
    requires k !in exposed
    ensures WithMetadataHeaders(h, exposed[k := v]) == Add(WithMetadataHeaders(h, exposed), MetaHeaderName(k), v)
  {
    var before := WithMetadataHeaders(h, exposed);
    var after := WithMetadataHeaders(h, exposed[k := v]);
    var added := Add(before, MetaHeaderName(k), v);
    forall name
      ensures (name in after <==> name in added) && Values(after, name) == Values(added, name)
    {
      WithMetadataHeadersStepAt(h, exposed, k, v, name);
    }
    HeaderMapsEqual(after, added);
  }

  /** The exposed entries among the metadata keys in `done`. */
  function ExposedAmong(metadata: map<string, string>, keys: set<string>, done: set<string>): map<string, string>
  {
    map k | k in done && k in metadata && k in keys && metadata[k] != "" :: metadata[k]
  }

  /** Visiting one more metadata key extends the exposed entries by that key's, if it is exposed. */
  lemma ExposedAmongStep(metadata: map<string, string>, keys: set<string>, done: set<string>, k: string)
    requires k in metadata && k !in done
    ensures k !in ExposedAmong(metadata, keys, done)
    ensures ExposedAmong(metadata, keys, done + {k}) ==
      if k in keys && metadata[k] != "" then ExposedAmong(metadata, keys, done)[k := metadata[k]]
      else ExposedAmong(metadata, keys, done)
  {
  }

  /** Once every key is visited, the exposed entries are all of them. */
  lemma ExposedAmongAll(metadata: map<string, string>, keys: set<string>)
    ensures ExposedAmong(metadata, keys, metadata.Keys) == Exposed(metadata, keys)
  {
  }

  /** Moving a visited key from the keys still to visit to the keys visited keeps the two a partition. */
  lemma MoveVisited(todo: set<string>, done: set<string>, all: set<string>, k: string)
    requires todo !! done && todo + done == all && k in todo
    ensures (todo - {k}) !! (done + {k}) && (todo - {k}) + (done + {k}) == all
  {
  }

  /** One turn of the loop in `writeMetadataHeaders`: visiting key `k` extends the headers to the visited keys plus `k`. */
  lemma MetadataLoopStep(h0: HeaderMap, metadata: map<string, string>, keys: set<string>, done: set<string>,
                         k: string, before: HeaderMap, after: HeaderMap)
    requires k in metadata && k !in done
    requires before == WithMetadataHeaders(h0, ExposedAmong(metadata, keys, done))
    requires after == if k in keys then AddAll(before, StrHeader(MetaHeaderName(k), metadata[k])) else before
    ensures after == WithMetadataHeaders(h0, ExposedAmong(metadata, keys, done + {k}))
  {
    ExposedAmongStep(metadata, keys, done, k);
    if k in keys {
      AddAllShort(before, StrHeader(MetaHeaderName(k), metadata[k]));
      if metadata[k] != "" {
        WithMetadataHeadersStep(h0, ExposedAmong(metadata, keys, done), k, metadata[k]);
      }
    }
  }

  /**
   * `writeMetadataHeaders`: visits the object's metadata in whatever order
   * the map yields it and adds `X-Goog-Meta-<k>: v` for each whitelisted key
   * `k` with a non-empty value `v`.
   */
  method WriteMetadataHeaders(attr: ObjectAttrs, w: WrapResponseWriter, passThrough: string)
    modifies w.inner
    ensures w.inner.header ==
      WithMetadataHeaders(old(w.inner.header), Exposed(attr.metadata, PassthroughKeys(passThrough)))
    ensures w.inner.code == old(w.inner.code) && w.inner.body == old(w.inner.body)
  {
    ghost var h0 := w.inner.header;
    var metaToPass := ParsePassthroughMeta(passThrough);
    var metadata := attr.metadata;
    var todo := metadata.Keys;
    ghost var done: set<string> := {};
    ghost var exposed: map<string, string> := map[];
    while todo != {}
      invariant todo !! done && todo + done == metadata.Keys
      invariant exposed == ExposedAmong(metadata, metaToPass, done)
      invariant w.inner.header == WithMetadataHeaders(h0, exposed)
      invariant w.inner.code == old(w.inner.code) && w.inner.body == old(w.inner.body)
      decreases todo
    {
      var k :| k in todo;
      ghost var before := w.inner.header;
      if k in metaToPass {
        SetStrHeader(w, MetaHeaderName(k), metadata[k]);
      }
      MetadataLoopStep(h0, metadata, metaToPass, done, k, before, w.inner.header);
      MoveVisited(todo, done, metadata.Keys, k);
      exposed := ExposedAmong(metadata, metaToPass, done + {k});
      todo, done := todo - {k}, done + {k};
    }
    ExposedAmongAll(metadata, metaToPass);
  }

  /** `clientAcceptsGzip`: "gzip" occurs somewhere in the `Accept-Encoding` value. */
  function ClientAcceptsGzip(r: Request): bool
  {
    Contains(RequestGet(r, "Accept-Encoding"), "gzip")
  }

  /** The client accepts gzip exactly when `gzip` occurs anywhere in its first `Accept-Encoding` value. */
  lemma ClientAcceptsGzipIff(r: Request)
    ensures ClientAcceptsGzip(r) <==> exists i :: OccursAt(RequestGet(r, "Accept-Encoding"), "gzip", i)
  {
    ContainsOccurs(RequestGet(r, "Accept-Encoding"), "gzip");
  }

  /**
   * The conditional-GET rule of `proxy`: the request carries an
   * `If-Modified-Since` value and the object's update time, cut to whole
   * seconds, is not after the time that value parses to (the zero time
   * when it does not parse).
   */
  predicate NotModified(r: Request, updated: Time, parse: string -> Option<Time>)
  {
    var lastStrs := RequestValues(r, "If-Modified-Since");
    |lastStrs| > 0 && !After(TruncateToSecond(updated), ParseTimeOrZero(parse, lastStrs[0]))
  }

  /** Names of the headers `proxy` sets from the attributes and the reader. */
  const ContentHeaderNames: set<string> := {"Last-Modified", "Content-Type", "Content-Language",
    "Cache-Control", "Content-Encoding", "Content-Disposition", "Content-Length"}

  /** The lines `proxy` adds after opening the reader, in the order it adds them. */
  function ContentHeaders(attr: ObjectAttrs, ra: ReaderAttrs, format: Time -> string): (lines: seq<HeaderLine>)
  {
    TimeHeader("Last-Modified", attr.updated, format)
    + StrHeader("Content-Type", attr.contentType)
    + StrHeader("Content-Language", attr.contentLanguage)
    + StrHeader("Cache-Control", attr.cacheControl)
    + StrHeader("Content-Encoding", ra.contentEncoding)
    + StrHeader("Content-Disposition", attr.contentDisposition)
    + IntHeader("Content-Length", ra.size)
  }

  /** The response `handleError` produces for a non-nil error on a fresh writer with headers `h`. */
  function ErrorResponse(h: HeaderMap, e: Error): Response
  {
    Response(StatusFor(e), ErrorHeader(h), ErrorText(e) + "\n")
  }

  /** The header map `proxy` has built when it reaches the conditional-GET check. */
  function VisibleHeader(h: HeaderMap, flags: Flags, attr: ObjectAttrs): HeaderMap
  {
    WithMetadataHeaders(h, Exposed(attr.metadata, PassthroughKeys(flags.passThrough)))
  }

  /**
   * The response `proxy` leaves behind, given the header map `h` it starts
   * from: the attribute fetch's error; the block rule's parse error; a bare
   * 404 for a blocked object; the metadata headers, then 304 when not
   * modified; the reader's error; else the content headers and the bytes.
   */
  function Respond(h: HeaderMap, r: Request, flags: Flags, obj: Object, dates: Dates): (resp: Response)
    ensures resp.status in {StatusOK, StatusNotModified, StatusNotFound, StatusInternalServerError}
  {
    match obj.attrs
    case Err(e) => ErrorResponse(h, e)
    case Ok(attr) =>
      match IsBlocked(attr.metadata, flags.blockIf)
      case Err(e) => ErrorResponse(h, e)
      case Ok(blocked) =>
        if blocked then Response(StatusNotFound, h, "")
        else
          var h1 := VisibleHeader(h, flags, attr);
          if NotModified(r, attr.updated, dates.parse) then Response(StatusNotModified, h1, "")
          else
            match obj.open(ClientAcceptsGzip(r))
            case Err(e) => ErrorResponse(h1, e)
            case Ok(objr) => Response(StatusOK, AddAll(h1, ContentHeaders(attr, objr.attrs, dates.format)), objr.content)
  }

  /** `Respond` on each of the paths through `proxy`. */
  lemma RespondOnPath(h: HeaderMap, r: Request, flags: Flags, obj: Object, dates: Dates)
    ensures obj.attrs.Err? ==> Respond(h, r, flags, obj, dates) == ErrorResponse(h, obj.attrs.error)
    ensures obj.attrs.Ok? && IsBlocked(obj.attrs.value.metadata, flags.blockIf).Err? ==>
      Respond(h, r, flags, obj, dates) == ErrorResponse(h, IsBlocked(obj.attrs.value.metadata, flags.blockIf).error)
    ensures obj.attrs.Ok? && IsBlocked(obj.attrs.value.metadata, flags.blockIf) == Ok(true) ==>
      Respond(h, r, flags, obj, dates) == Response(StatusNotFound, h, "")
    ensures obj.attrs.Ok? && IsBlocked(obj.attrs.value.metadata, flags.blockIf) == Ok(false) ==>
      var h1 := VisibleHeader(h, flags, obj.attrs.value);
      && (NotModified(r, obj.attrs.value.updated, dates.parse) ==>
            Respond(h, r, flags, obj, dates) == Response(StatusNotModified, h1, ""))
      && (!NotModified(r, obj.attrs.value.updated, dates.parse) && obj.open(ClientAcceptsGzip(r)).Err? ==>
            Respond(h, r, flags, obj, dates) == ErrorResponse(h1, obj.open(ClientAcceptsGzip(r)).error))
      && (!NotModified(r, obj.attrs.value.updated, dates.parse) && obj.open(ClientAcceptsGzip(r)).Ok? ==>
            var objr := obj.open(ClientAcceptsGzip(r)).value;
            Respond(h, r, flags, obj, dates) ==
              Response(StatusOK, AddAll(h1, ContentHeaders(obj.attrs.value, objr.attrs, dates.format)), objr.content))
  {
  }

  /** The content headers of `proxy`, added one setter after another. */
  method SetContentHeaders(w: WrapResponseWriter, attr: ObjectAttrs, ra: ReaderAttrs, format: Time -> string)
    modifies w.inner
    ensures w.inner.header == AddAll(old(w.inner.header), ContentHeaders(attr, ra, format))
    ensures w.inner.code == old(w.inner.code) && w.inner.body == old(w.inner.body)
  {
    ghost var h := w.inner.header;
    SetTimeHeader(w, "Last-Modified", attr.updated, format);
    ghost var lines := TimeHeader("Last-Modified", attr.updated, format);
    SetStrHeader(w, "Content-Type", attr.contentType);
    AddAllAppend(h, lines, StrHeader("Content-Type", attr.contentType));
    lines := lines + StrHeader("Content-Type", attr.contentType);
    SetStrHeader(w, "Content-Language", attr.contentLanguage);
    AddAllAppend(h, lines, StrHeader("Content-Language", attr.contentLanguage));
    lines := lines + StrHeader("Content-Language", attr.contentLanguage);
    SetStrHeader(w, "Cache-Control", attr.cacheControl);
    AddAllAppend(h, lines, StrHeader("Cache-Control", attr.cacheControl));
    lines := lines + StrHeader("Cache-Control", attr.cacheControl);
    SetStrHeader(w, "Content-Encoding", ra.contentEncoding);
    AddAllAppend(h, lines, StrHeader("Content-Encoding", ra.contentEncoding));
    lines := lines + StrHeader("Content-Encoding", ra.contentEncoding);
    SetStrHeader(w, "Content-Disposition", attr.contentDisposition);
    AddAllAppend(h, lines, StrHeader("Content-Disposition", attr.contentDisposition));
    lines := lines + StrHeader("Content-Disposition", attr.contentDisposition);
    SetIntHeader(w, "Content-Length", ra.size);
    AddAllAppend(h, lines, IntHeader("Content-Length", ra.size));
    lines := lines + IntHeader("Content-Length", ra.size);
  }

  /**
   * `proxy` on a writer nothing has been written to: the writer ends as
   * `Respond` says, and the wrapper has recorded every status written
   * through it (on the served path none is, and it keeps what it had).
   */
  method Proxy(w: WrapResponseWriter, r: Request, flags: Flags, obj: Object, dates: Dates)
    requires w.inner.code == None && w.inner.body == ""
    modifies w, w.inner
    ensures var resp := Respond(old(w.inner.header), r, flags, obj, dates);
      && w.inner.code == Some(resp.status)
      && w.inner.header == resp.header
      && w.inner.body == resp.body
      && w.status == if resp.status == StatusOK then old(w.status) else resp.status
  {
    ghost var h0 := w.inner.header;
    ghost var resp := Respond(h0, r, flags, obj, dates);
    var gzipAcceptable := ClientAcceptsGzip(r);
    if obj.attrs.Err? {
      assert resp == ErrorResponse(h0, obj.attrs.error) by {
        RespondOnPath(h0, r, flags, obj, dates);
      }
      assert "" + (ErrorText(obj.attrs.error) + "\n") == ErrorText(obj.attrs.error) + "\n";
      HandleError(w, Some(obj.attrs.error));
      return;
    }
    var attr := obj.attrs.value;
    var blocked := IsBlocked(attr.metadata, flags.blockIf);
    if blocked.Err? {
      assert resp == ErrorResponse(h0, blocked.error) by {
        RespondOnPath(h0, r, flags, obj, dates);
      }
      assert "" + (ErrorText(blocked.error) + "\n") == ErrorText(blocked.error) + "\n";
      HandleError(w, Some(blocked.error));
      return;
    }
    if blocked.value {
      assert resp == Response(StatusNotFound, h0, "") by {
        RespondOnPath(h0, r, flags, obj, dates);
      }
      w.WriteHeader(StatusNotFound);
      return;
    }
    WriteMetadataHeaders(attr, w, flags.passThrough);
    assert w.inner.header == VisibleHeader(h0, flags, attr);

    var lastStrs := RequestValues(r, "If-Modified-Since");
    if |lastStrs| > 0 {
      var last := ParseTimeOrZero(dates.parse, lastStrs[0]);
      if !After(TruncateToSecond(attr.updated), last) {
        assert resp == Response(StatusNotModified, VisibleHeader(h0, flags, attr), "") by {
          RespondOnPath(h0, r, flags, obj, dates);
        }
        w.WriteHeader(StatusNotModified);
        return;
      }
    }
    assert !NotModified(r, attr.updated, dates.parse);
    var objr := obj.open(gzipAcceptable);
    if objr.Err? {
      assert resp == ErrorResponse(VisibleHeader(h0, flags, attr), objr.error) by {
        RespondOnPath(h0, r, flags, obj, dates);
      }
      assert "" + (ErrorText(objr.error) + "\n") == ErrorText(objr.error) + "\n";
      HandleError(w, Some(objr.error));
      return;
    }
    assert resp == Response(StatusOK,
      AddAll(VisibleHeader(h0, flags, attr), ContentHeaders(attr, objr.value.attrs, dates.format)), objr.value.content) by {
      RespondOnPath(h0, r, flags, obj, dates);
    }
    SetContentHeaders(w, attr, objr.value.attrs, dates.format);
    w.inner.Write(objr.value.content);
    assert w.inner.body == resp.body;
  }

  /**
   * `wrapper(proxy)` for one request, without the log line itself: builds
   * the recorder, runs `proxy`, and yields the client address and the status
   * the log line reports. The reported status is the one sent to the client,
   * and the client receives the headers and body `Respond` gives.
   */
  method Serve(inner: ResponseWriter, r: Request, flags: Flags, obj: Object, dates: Dates)
    returns (addr: string, status: int)
    requires inner.code == None && inner.body == ""
    modifies inner
    ensures status == Respond(old(inner.header), r, flags, obj, dates).status
    ensures inner.code == Some(status)
    ensures inner.header == Respond(old(inner.header), r, flags, obj, dates).header
    ensures inner.body == Respond(old(inner.header), r, flags, obj, dates).body
    ensures addr == if Header(r, "X-Forwarded-For").1 then Header(r, "X-Forwarded-For").0 else r.remoteAddr
  {
    var writer := new WrapResponseWriter(inner);
    Proxy(writer, r, flags, obj, dates);
    addr := r.remoteAddr;
    var (ip, found) := Header(r, "X-Forwarded-For");
    if found {
      addr := ip;
    }
    status := writer.status;
  }
}
