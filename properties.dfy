/**
 * What a request through the gateway can and cannot observe: which status
 * each outcome of the storage calls and the flags leads to, which headers a
 * response carries, and the conditional-GET rule in whole seconds.
 */
module GatewayProperties {
  import opened Wrappers
  import opened GoStrings
  import opened GoTime
  import opened NetHttp
  import opened Storage
  import opened Policy
  import opened Gateway

  /** The request reached the point where `proxy` writes the passed-through metadata headers. */
  predicate MetadataWritten(flags: Flags, obj: Object)
  {
    obj.attrs.Ok? && IsBlocked(obj.attrs.value.metadata, flags.blockIf) == Ok(false)
  }

  /** Metadata key `k` of the object is among the entries `writeMetadataHeaders` turns into headers. */
  predicate IsExposed(flags: Flags, attr: ObjectAttrs, k: string)
  {
    k in Exposed(attr.metadata, PassthroughKeys(flags.passThrough))
  }

  /** The request got past the attributes, the block rule and the conditional GET to the reader. */
  predicate ReaderOpened(r: Request, flags: Flags, obj: Object, dates: Dates)
  {
    MetadataWritten(flags, obj) && !NotModified(r, obj.attrs.value.updated, dates.parse)
  }

  /**
   * The status of every response, by the stage that decided it: 200 only
   * when every stage passes, 304 only for an unblocked object the client
   * already has, 404 for a missing or blocked object, 500 otherwise.
   */
  lemma RespondStatus(h: HeaderMap, r: Request, flags: Flags, obj: Object, dates: Dates)
    ensures var resp := Respond(h, r, flags, obj, dates);
      && (resp.status == StatusOK <==>
            ReaderOpened(r, flags, obj, dates) && obj.open(ClientAcceptsGzip(r)).Ok?)
      && (resp.status == StatusNotModified <==>
            MetadataWritten(flags, obj) && NotModified(r, obj.attrs.value.updated, dates.parse))
      && (resp.status == StatusNotFound <==>
            || obj.attrs == Err(ObjectNotExist)
            || (obj.attrs.Ok? && IsBlocked(obj.attrs.value.metadata, flags.blockIf) == Ok(true))
            || (ReaderOpened(r, flags, obj, dates) && obj.open(ClientAcceptsGzip(r)) == Err(ObjectNotExist)))
      && (resp.status == StatusInternalServerError <==>
            || (obj.attrs.Err? && obj.attrs.error != ObjectNotExist)
            || (obj.attrs.Ok? && IsBlocked(obj.attrs.value.metadata, flags.blockIf).Err?)
            || (ReaderOpened(r, flags, obj, dates) && obj.open(ClientAcceptsGzip(r)).Err?
                && obj.open(ClientAcceptsGzip(r)).error != ObjectNotExist))
  {
    RespondOnPath(h, r, flags, obj, dates);
  }

  /**
   * A blocked object is answered with a bare 404: no body, and not one
   * header beyond those the writer already had, so none of its metadata.
   */
  lemma BlockedObjectRevealsNothing(h: HeaderMap, r: Request, flags: Flags, obj: Object, dates: Dates)
    requires obj.attrs.Ok? && IsBlocked(obj.attrs.value.metadata, flags.blockIf) == Ok(true)
    ensures Respond(h, r, flags, obj, dates) == Response(StatusNotFound, h, "")
  {
    RespondOnPath(h, r, flags, obj, dates);
  }

  /**
   * Every error the handler reports is answered as `http.Error` does: the
   * error's text and a newline as the body, sent as plain text.
   */
  lemma ErrorResponses(h: HeaderMap, r: Request, flags: Flags, obj: Object, dates: Dates)
    ensures var resp := Respond(h, r, flags, obj, dates);
      resp.status == StatusInternalServerError || (resp.status == StatusNotFound && resp.body != "") ==>
        && Values(resp.header, "Content-Type") == ["text/plain; charset=utf-8"]
        && Values(resp.header, "X-Content-Type-Options") == ["nosniff"]
        && (obj.attrs.Err? ==> resp.body == ErrorText(obj.attrs.error) + "\n")
        && (obj.attrs.Ok? && IsBlocked(obj.attrs.value.metadata, flags.blockIf).Err? ==>
              resp.body == BlockIfMessage + "\n")
        && (ReaderOpened(r, flags, obj, dates) ==>
              resp.body == ErrorText(obj.open(ClientAcceptsGzip(r)).error) + "\n")
  {
    RespondOnPath(h, r, flags, obj, dates);
    var resp := Respond(h, r, flags, obj, dates);
    if obj.attrs.Ok? && IsBlocked(obj.attrs.value.metadata, flags.blockIf).Err? {
      assert IsBlocked(obj.attrs.value.metadata, flags.blockIf).error == Failure(BlockIfMessage);
    }
  }

  /**
   * With `-block-if` left at its default, whatever `-pass-through` says,
   * every object that exists is answered with a 500 and the block-rule
   * error, never with its bytes.
   */
  lemma DefaultBlockIfRejectsEveryObject(h: HeaderMap, r: Request, passThrough: string, obj: Object, dates: Dates)
    requires obj.attrs.Ok?
    ensures Respond(h, r, Flags(DefaultFlag, passThrough), obj, dates) ==
      Response(StatusInternalServerError, ErrorHeader(h), BlockIfMessage + "\n")
  {
    DefaultBlockIfIsError(obj.attrs.value.metadata);
    RespondOnPath(h, r, Flags(DefaultFlag, passThrough), obj, dates);
  }

  /** The rule `Blocked:true` answers an object whose `Blocked` metadata is `true` with a bare 404. */
  lemma BlockedTrueExample(h: HeaderMap, r: Request, obj: Object, dates: Dates)
    requires obj.attrs.Ok? && Lookup(obj.attrs.value.metadata, "Blocked") == "true"
    ensures Respond(h, r, Flags("Blocked:true", DefaultFlag), obj, dates) == Response(StatusNotFound, h, "")
  {
    assert "Blocked:true" == "Blocked" + ":" + "true";
    IsBlockedByRule(obj.attrs.value.metadata, "Blocked", "true");
    RespondOnPath(h, r, Flags("Blocked:true", DefaultFlag), obj, dates);
  }

  /** The rule `Blocked:true` lets an object through whose `Blocked` metadata is anything else. */
  lemma NotBlockedExample(h: HeaderMap, r: Request, obj: Object, dates: Dates)
    requires obj.attrs.Ok? && Lookup(obj.attrs.value.metadata, "Blocked") != "true"
    ensures MetadataWritten(Flags("Blocked:true", DefaultFlag), obj)
  {
    assert "Blocked:true" == "Blocked" + ":" + "true";
    IsBlockedByRule(obj.attrs.value.metadata, "Blocked", "true");
  }

  /** A metadata header name never collides with a name `proxy` or `http.Error` sets. */
  lemma MetadataNamesAreDistinct(k: string)
    ensures MetaHeaderName(k) !in ContentHeaderNames
    ensures MetaHeaderName(k) != "Content-Type" && MetaHeaderName(k) != "X-Content-Type-Options"
  {
    var name := MetaHeaderName(k);
    assert name[0] == 'X' && name[2] == 'G';
  }

  /**
   * A metadata header gains the entry's value exactly when the handler got
   * as far as writing metadata headers and the key is whitelisted with a
   * non-empty value; on every other path, and for every other key, it is
   * left as the writer had it.
   */
  lemma MetadataHeaderOnEveryPath(h: HeaderMap, r: Request, flags: Flags, obj: Object, dates: Dates, k: string)
    ensures var resp := Respond(h, r, flags, obj, dates);
      Values(resp.header, MetaHeaderName(k)) == Values(h, MetaHeaderName(k)) +
        (if MetadataWritten(flags, obj) && IsExposed(flags, obj.attrs.value, k)
         then [obj.attrs.value.metadata[k]] else [])
  {
    RespondOnPath(h, r, flags, obj, dates);
    MetadataNamesAreDistinct(k);
    var name := MetaHeaderName(k);
    var resp := Respond(h, r, flags, obj, dates);
    if MetadataWritten(flags, obj) {
      var attr := obj.attrs.value;
      var exposed := Exposed(attr.metadata, PassthroughKeys(flags.passThrough));
      var h1 := VisibleHeader(h, flags, attr);
      MetadataHeaderValues(h, exposed, k);
      assert Values(h1, name) == Values(h, name) + (if k in exposed then [attr.metadata[k]] else []);
      if !NotModified(r, attr.updated, dates.parse) && obj.open(ClientAcceptsGzip(r)).Ok? {
        var lines := ContentHeaders(attr, obj.open(ClientAcceptsGzip(r)).value.attrs, dates.format);
        assert Values(AddAll(h1, lines), name) == Values(h1, name) by {
          AddAllValues(h1, lines, name);
          ContentHeadersOtherName(attr, obj.open(ClientAcceptsGzip(r)).value.attrs, dates.format, name);
        }
      }
    }
  }

  /**
   * A 304 carries none of the content headers: each of them comes out as
   * the writer had it, since the metadata headers never share their names.
   */
  lemma NotModifiedNoContentHeaders(h: HeaderMap, r: Request, flags: Flags, obj: Object, dates: Dates, key: string)
    requires Respond(h, r, flags, obj, dates).status == StatusNotModified
    requires key in ContentHeaderNames
    ensures Values(Respond(h, r, flags, obj, dates).header, key) == Values(h, key)
  {
    RespondOnPath(h, r, flags, obj, dates);
    if MetaPrefix <= key {
      MetaHeaderNameOf(key);
      MetadataNamesAreDistinct(key[|MetaPrefix|..]);
      assert false;
    }
    var attr := obj.attrs.value;
    NonMetadataHeaderUnchanged(h, Exposed(attr.metadata, PassthroughKeys(flags.passThrough)), key);
  }

  /**
   * Any header outside the metadata prefix, the content headers and the two
   * error headers comes out of every path exactly as the writer had it.
   */
  lemma OtherHeadersUntouched(h: HeaderMap, r: Request, flags: Flags, obj: Object, dates: Dates, key: string)
    requires !(MetaPrefix <= key) && key !in ContentHeaderNames
    requires key != "Content-Type" && key != "X-Content-Type-Options"
    ensures Values(Respond(h, r, flags, obj, dates).header, key) == Values(h, key)
  {
    RespondOnPath(h, r, flags, obj, dates);
    if MetadataWritten(flags, obj) {
      var attr := obj.attrs.value;
      var exposed := Exposed(attr.metadata, PassthroughKeys(flags.passThrough));
      var h1 := VisibleHeader(h, flags, attr);
      NonMetadataHeaderUnchanged(h, exposed, key);
      if !NotModified(r, attr.updated, dates.parse) && obj.open(ClientAcceptsGzip(r)).Ok? {
        var lines := ContentHeaders(attr, obj.open(ClientAcceptsGzip(r)).value.attrs, dates.format);
        assert Values(AddAll(h1, lines), key) == Values(h1, key) by {
          AddAllValues(h1, lines, key);
          ContentHeadersOtherName(attr, obj.open(ClientAcceptsGzip(r)).value.attrs, dates.format, key);
        }
      }
    }
  }

  /** The value `setStrHeader` gives a header name: the value, for its own key, when it is non-empty. */
  lemma StrHeaderValues(key: string, value: string, name: string)
    ensures ValuesIn(StrHeader(key, value), name) == if key == name && value != "" then [value] else []
  {
    if value != "" {
      assert StrHeader(key, value)[1..] == [];
    }
  }

  /** The value `setIntHeader` gives a header name: the decimal number, for its own key, when it is positive. */
  lemma IntHeaderValues(key: string, value: int, name: string)
    ensures ValuesIn(IntHeader(key, value), name) == if key == name && value > 0 then [FormatInt(value)] else []
  {
    if value > 0 {
      assert IntHeader(key, value)[1..] == [];
    }
  }

  /** The value `setTimeHeader` gives a header name: the formatted time, for its own key, unless it is the zero time. */
  lemma TimeHeaderValues(key: string, value: Time, format: Time -> string, name: string)
    ensures ValuesIn(TimeHeader(key, value, format), name) == if key == name && !IsZero(value) then [format(value)] else []
  {
    if !IsZero(value) {
      assert TimeHeader(key, value, format)[1..] == [];
    }
  }

  /** The values the content header lines give `key`, setter by setter. */
  lemma ContentHeadersAt(attr: ObjectAttrs, ra: ReaderAttrs, format: Time -> string, key: string)
    ensures ValuesIn(ContentHeaders(attr, ra, format), key) ==
      ValuesIn(TimeHeader("Last-Modified", attr.updated, format), key)
      + ValuesIn(StrHeader("Content-Type", attr.contentType), key)
      + ValuesIn(StrHeader("Content-Language", attr.contentLanguage), key)
      + ValuesIn(StrHeader("Cache-Control", attr.cacheControl), key)
      + ValuesIn(StrHeader("Content-Encoding", ra.contentEncoding), key)
      + ValuesIn(StrHeader("Content-Disposition", attr.contentDisposition), key)
      + ValuesIn(IntHeader("Content-Length", ra.size), key)
  {
    var l0 := TimeHeader("Last-Modified", attr.updated, format);
    var l1 := StrHeader("Content-Type", attr.contentType);
    var l2 := StrHeader("Content-Language", attr.contentLanguage);
    var l3 := StrHeader("Cache-Control", attr.cacheControl);
    var l4 := StrHeader("Content-Encoding", ra.contentEncoding);
    var l5 := StrHeader("Content-Disposition", attr.contentDisposition);
    var l6 := IntHeader("Content-Length", ra.size);
    ValuesInAppend(l0, l1, key);
    ValuesInAppend(l0 + l1, l2, key);
    ValuesInAppend(l0 + l1 + l2, l3, key);
    ValuesInAppend(l0 + l1 + l2 + l3, l4, key);
    ValuesInAppend(l0 + l1 + l2 + l3 + l4, l5, key);
    ValuesInAppend(l0 + l1 + l2 + l3 + l4 + l5, l6, key);
  }

  /** `Last-Modified` carries the formatted update time, unless that is the zero time. */
  lemma LastModifiedHeader(attr: ObjectAttrs, ra: ReaderAttrs, format: Time -> string)
    ensures ValuesIn(ContentHeaders(attr, ra, format), "Last-Modified") == (if IsZero(attr.updated) then [] else [format(attr.updated)])
  {
    var name := "Last-Modified";
    assert ValuesIn(TimeHeader("Last-Modified", attr.updated, format), name) == (if IsZero(attr.updated) then [] else [format(attr.updated)]) by {
      TimeHeaderValues("Last-Modified", attr.updated, format, name);
    }
    assert ValuesIn(StrHeader("Content-Type", attr.contentType), name) == [] by {
      StrHeaderValues("Content-Type", attr.contentType, name);
    }
    assert ValuesIn(StrHeader("Content-Language", attr.contentLanguage), name) == [] by {
      StrHeaderValues("Content-Language", attr.contentLanguage, name);
    }
    assert ValuesIn(StrHeader("Cache-Control", attr.cacheControl), name) == [] by {
      StrHeaderValues("Cache-Control", attr.cacheControl, name);
    }
    assert ValuesIn(StrHeader("Content-Encoding", ra.contentEncoding), name) == [] by {
      StrHeaderValues("Content-Encoding", ra.contentEncoding, name);
    }
    assert ValuesIn(StrHeader("Content-Disposition", attr.contentDisposition), name) == [] by {
      StrHeaderValues("Content-Disposition", attr.contentDisposition, name);
    }
    assert ValuesIn(IntHeader("Content-Length", ra.size), name) == [] by {
      IntHeaderValues("Content-Length", ra.size, name);
    }
    ContentHeadersAt(attr, ra, format, name);
  }

  /** `Content-Type` carries the object's content type, unless it is empty. */
  lemma ContentTypeHeader(attr: ObjectAttrs, ra: ReaderAttrs, format: Time -> string)
    ensures ValuesIn(ContentHeaders(attr, ra, format), "Content-Type") == (if attr.contentType == "" then [] else [attr.contentType])
  {
    var name := "Content-Type";
    assert ValuesIn(TimeHeader("Last-Modified", attr.updated, format), name) == [] by {
      TimeHeaderValues("Last-Modified", attr.updated, format, name);
    }
    assert ValuesIn(StrHeader("Content-Type", attr.contentType), name) == (if attr.contentType == "" then [] else [attr.contentType]) by {
      StrHeaderValues("Content-Type", attr.contentType, name);
    }
    assert ValuesIn(StrHeader("Content-Language", attr.contentLanguage), name) == [] by {
      StrHeaderValues("Content-Language", attr.contentLanguage, name);
    }
    assert ValuesIn(StrHeader("Cache-Control", attr.cacheControl), name) == [] by {
      StrHeaderValues("Cache-Control", attr.cacheControl, name);
    }
    assert ValuesIn(StrHeader("Content-Encoding", ra.contentEncoding), name) == [] by {
      StrHeaderValues("Content-Encoding", ra.contentEncoding, name);
    }
    assert ValuesIn(StrHeader("Content-Disposition", attr.contentDisposition), name) == [] by {
      StrHeaderValues("Content-Disposition", attr.contentDisposition, name);
    }
    assert ValuesIn(IntHeader("Content-Length", ra.size), name) == [] by {
      IntHeaderValues("Content-Length", ra.size, name);
    }
    ContentHeadersAt(attr, ra, format, name);
  }

  /** `Content-Language` carries the object's content language, unless it is empty. */
  lemma ContentLanguageHeader(attr: ObjectAttrs, ra: ReaderAttrs, format: Time -> string)
    ensures ValuesIn(ContentHeaders(attr, ra, format), "Content-Language") == (if attr.contentLanguage == "" then [] else [attr.contentLanguage])
  {
    var name := "Content-Language";
    assert ValuesIn(TimeHeader("Last-Modified", attr.updated, format), name) == [] by {
      TimeHeaderValues("Last-Modified", attr.updated, format, name);
    }
    assert ValuesIn(StrHeader("Content-Type", attr.contentType), name) == [] by {
      StrHeaderValues("Content-Type", attr.contentType, name);
    }
    assert ValuesIn(StrHeader("Content-Language", attr.contentLanguage), name) == (if attr.contentLanguage == "" then [] else [attr.contentLanguage]) by {
      StrHeaderValues("Content-Language", attr.contentLanguage, name);
    }
    assert ValuesIn(StrHeader("Cache-Control", attr.cacheControl), name) == [] by {
      StrHeaderValues("Cache-Control", attr.cacheControl, name);
    }
    assert ValuesIn(StrHeader("Content-Encoding", ra.contentEncoding), name) == [] by {
      StrHeaderValues("Content-Encoding", ra.contentEncoding, name);
    }
    assert ValuesIn(StrHeader("Content-Disposition", attr.contentDisposition), name) == [] by {
      StrHeaderValues("Content-Disposition", attr.contentDisposition, name);
    }
    assert ValuesIn(IntHeader("Content-Length", ra.size), name) == [] by {
      IntHeaderValues("Content-Length", ra.size, name);
    }
    ContentHeadersAt(attr, ra, format, name);
  }

  /** `Cache-Control` carries the object's cache control, unless it is empty. */
  lemma CacheControlHeader(attr: ObjectAttrs, ra: ReaderAttrs, format: Time -> string)
    ensures ValuesIn(ContentHeaders(attr, ra, format), "Cache-Control") == (if attr.cacheControl == "" then [] else [attr.cacheControl])
  {
    var name := "Cache-Control";
    assert ValuesIn(TimeHeader("Last-Modified", attr.updated, format), name) == [] by {
      TimeHeaderValues("Last-Modified", attr.updated, format, name);
    }
    assert ValuesIn(StrHeader("Content-Type", attr.contentType), name) == [] by {
      StrHeaderValues("Content-Type", attr.contentType, name);
    }
    assert ValuesIn(StrHeader("Content-Language", attr.contentLanguage), name) == [] by {
      StrHeaderValues("Content-Language", attr.contentLanguage, name);
    }
    assert ValuesIn(StrHeader("Cache-Control", attr.cacheControl), name) == (if attr.cacheControl == "" then [] else [attr.cacheControl]) by {
      StrHeaderValues("Cache-Control", attr.cacheControl, name);
    }
    assert ValuesIn(StrHeader("Content-Encoding", ra.contentEncoding), name) == [] by {
      StrHeaderValues("Content-Encoding", ra.contentEncoding, name);
    }
    assert ValuesIn(StrHeader("Content-Disposition", attr.contentDisposition), name) == [] by {
      StrHeaderValues("Content-Disposition", attr.contentDisposition, name);
    }
    assert ValuesIn(IntHeader("Content-Length", ra.size), name) == [] by {
      IntHeaderValues("Content-Length", ra.size, name);
    }
    ContentHeadersAt(attr, ra, format, name);
  }

  /** `Content-Encoding` carries the encoding the reader reports, unless it is empty. */
  lemma ContentEncodingHeader(attr: ObjectAttrs, ra: ReaderAttrs, format: Time -> string)
    ensures ValuesIn(ContentHeaders(attr, ra, format), "Content-Encoding") == (if ra.contentEncoding == "" then [] else [ra.contentEncoding])
  {
    var name := "Content-Encoding";
    assert ValuesIn(TimeHeader("Last-Modified", attr.updated, format), name) == [] by {
      TimeHeaderValues("Last-Modified", attr.updated, format, name);
    }
    assert ValuesIn(StrHeader("Content-Type", attr.contentType), name) == [] by {
      StrHeaderValues("Content-Type", attr.contentType, name);
    }
    assert ValuesIn(StrHeader("Content-Language", attr.contentLanguage), name) == [] by {
      StrHeaderValues("Content-Language", attr.contentLanguage, name);
    }
    assert ValuesIn(StrHeader("Cache-Control", attr.cacheControl), name) == [] by {
      StrHeaderValues("Cache-Control", attr.cacheControl, name);
    }
    assert ValuesIn(StrHeader("Content-Encoding", ra.contentEncoding), name) == (if ra.contentEncoding == "" then [] else [ra.contentEncoding]) by {
      StrHeaderValues("Content-Encoding", ra.contentEncoding, name);
    }
    assert ValuesIn(StrHeader("Content-Disposition", attr.contentDisposition), name) == [] by {
      StrHeaderValues("Content-Disposition", attr.contentDisposition, name);
    }
    assert ValuesIn(IntHeader("Content-Length", ra.size), name) == [] by {
      IntHeaderValues("Content-Length", ra.size, name);
    }
    ContentHeadersAt(attr, ra, format, name);
  }

  /** `Content-Disposition` carries the object's content disposition, unless it is empty. */
  lemma ContentDispositionHeader(attr: ObjectAttrs, ra: ReaderAttrs, format: Time -> string)
    ensures ValuesIn(ContentHeaders(attr, ra, format), "Content-Disposition") == (if attr.contentDisposition == "" then [] else [attr.contentDisposition])
  {
    var name := "Content-Disposition";
    assert ValuesIn(TimeHeader("Last-Modified", attr.updated, format), name) == [] by {
      TimeHeaderValues("Last-Modified", attr.updated, format, name);
    }
    assert ValuesIn(StrHeader("Content-Type", attr.contentType), name) == [] by {
      StrHeaderValues("Content-Type", attr.contentType, name);
    }
    assert ValuesIn(StrHeader("Content-Language", attr.contentLanguage), name) == [] by {
      StrHeaderValues("Content-Language", attr.contentLanguage, name);
    }
    assert ValuesIn(StrHeader("Cache-Control", attr.cacheControl), name) == [] by {
      StrHeaderValues("Cache-Control", attr.cacheControl, name);
    }
    assert ValuesIn(StrHeader("Content-Encoding", ra.contentEncoding), name) == [] by {
      StrHeaderValues("Content-Encoding", ra.contentEncoding, name);
    }
    assert ValuesIn(StrHeader("Content-Disposition", attr.contentDisposition), name) == (if attr.contentDisposition == "" then [] else [attr.contentDisposition]) by {
      StrHeaderValues("Content-Disposition", attr.contentDisposition, name);
    }
    assert ValuesIn(IntHeader("Content-Length", ra.size), name) == [] by {
      IntHeaderValues("Content-Length", ra.size, name);
    }
    ContentHeadersAt(attr, ra, format, name);
  }

  /** `Content-Length` carries the size the reader reports, in decimal, when it is positive. */
  lemma ContentLengthHeader(attr: ObjectAttrs, ra: ReaderAttrs, format: Time -> string)
    ensures ValuesIn(ContentHeaders(attr, ra, format), "Content-Length") == (if ra.size > 0 then [FormatInt(ra.size)] else [])
  {
    var name := "Content-Length";
    assert ValuesIn(TimeHeader("Last-Modified", attr.updated, format), name) == [] by {
      TimeHeaderValues("Last-Modified", attr.updated, format, name);
    }
    assert ValuesIn(StrHeader("Content-Type", attr.contentType), name) == [] by {
      StrHeaderValues("Content-Type", attr.contentType, name);
    }
    assert ValuesIn(StrHeader("Content-Language", attr.contentLanguage), name) == [] by {
      StrHeaderValues("Content-Language", attr.contentLanguage, name);
    }
    assert ValuesIn(StrHeader("Cache-Control", attr.cacheControl), name) == [] by {
      StrHeaderValues("Cache-Control", attr.cacheControl, name);
    }
    assert ValuesIn(StrHeader("Content-Encoding", ra.contentEncoding), name) == [] by {
      StrHeaderValues("Content-Encoding", ra.contentEncoding, name);
    }
    assert ValuesIn(StrHeader("Content-Disposition", attr.contentDisposition), name) == [] by {
      StrHeaderValues("Content-Disposition", attr.contentDisposition, name);
    }
    assert ValuesIn(IntHeader("Content-Length", ra.size), name) == (if ra.size > 0 then [FormatInt(ra.size)] else []) by {
      IntHeaderValues("Content-Length", ra.size, name);
    }
    ContentHeadersAt(attr, ra, format, name);
  }

  /** The content header lines give a name outside `ContentHeaderNames` no value. */
  lemma ContentHeadersOtherName(attr: ObjectAttrs, ra: ReaderAttrs, format: Time -> string, key: string)
    requires key !in ContentHeaderNames
    ensures ValuesIn(ContentHeaders(attr, ra, format), key) == []
  {
    assert ValuesIn(TimeHeader("Last-Modified", attr.updated, format), key) == [] by {
      TimeHeaderValues("Last-Modified", attr.updated, format, key);
    }
    assert ValuesIn(StrHeader("Content-Type", attr.contentType), key) == [] by {
      StrHeaderValues("Content-Type", attr.contentType, key);
    }
    assert ValuesIn(StrHeader("Content-Language", attr.contentLanguage), key) == [] by {
      StrHeaderValues("Content-Language", attr.contentLanguage, key);
    }
    assert ValuesIn(StrHeader("Cache-Control", attr.cacheControl), key) == [] by {
      StrHeaderValues("Cache-Control", attr.cacheControl, key);
    }
    assert ValuesIn(StrHeader("Content-Encoding", ra.contentEncoding), key) == [] by {
      StrHeaderValues("Content-Encoding", ra.contentEncoding, key);
    }
    assert ValuesIn(StrHeader("Content-Disposition", attr.contentDisposition), key) == [] by {
      StrHeaderValues("Content-Disposition", attr.contentDisposition, key);
    }
    assert ValuesIn(IntHeader("Content-Length", ra.size), key) == [] by {
      IntHeaderValues("Content-Length", ra.size, key);
    }
    ContentHeadersAt(attr, ra, format, key);
  }

  /**
   * A served object: the body is the reader's bytes, and every header
   * outside the metadata prefix holds what the writer had plus the values
   * the content header lines give it (one lemma per header above).
   */
  lemma ServedResponse(h: HeaderMap, r: Request, flags: Flags, obj: Object, dates: Dates, key: string)
    requires Respond(h, r, flags, obj, dates).status == StatusOK
    requires !(MetaPrefix <= key)
    ensures obj.attrs.Ok? && obj.open(ClientAcceptsGzip(r)).Ok?
    ensures var resp := Respond(h, r, flags, obj, dates);
      var objr := obj.open(ClientAcceptsGzip(r)).value;
      && resp.body == objr.content
      && Values(resp.header, key) == Values(h, key) + ValuesIn(ContentHeaders(obj.attrs.value, objr.attrs, dates.format), key)
  {
    RespondOnPath(h, r, flags, obj, dates);
    var attr := obj.attrs.value;
    var objr := obj.open(ClientAcceptsGzip(r)).value;
    var exposed := Exposed(attr.metadata, PassthroughKeys(flags.passThrough));
    var h1 := VisibleHeader(h, flags, attr);
    NonMetadataHeaderUnchanged(h, exposed, key);
    AddAllValues(h1, ContentHeaders(attr, objr.attrs, dates.format), key);
  }

  /** A request without `If-Modified-Since` is never answered with 304. */
  lemma NoConditionalWithoutHeader(r: Request, updated: Time, parse: string -> Option<Time>)
    requires RequestValues(r, "If-Modified-Since") == []
    ensures !NotModified(r, updated, parse)
  {
  }

  /**
   * Cutting the update time to whole seconds: it is not after `t` exactly
   * when the update happened before the end of the second `t` falls in.
   */
  lemma TruncatedNotAfter(updated: Time, t: Time)
    ensures !After(TruncateToSecond(updated), t) <==> updated < TruncateToSecond(t) + Second
  {
    var a, b := TruncateToSecond(updated), TruncateToSecond(t);
    var qa, qb := updated / Second, t / Second;
    assert a == qa * Second;
    assert b == qb * Second;
    if a <= t {
      assert qa * Second < qb * Second + Second;
      assert qa <= qb;
    }
    if updated < b + Second {
      assert qa * Second < qb * Second + Second;
      assert qa <= qb;
    }
  }

  /**
   * The conditional-GET rule: with a parsable `If-Modified-Since` the object
   * is not modified when it was updated before the end of that second; with
   * an unparsable one the comparison is against the zero time, so only an
   * object updated before the end of Go's first second (00:00:01 UTC,
   * January 1, year 1) counts as not modified.
   */
  lemma NotModifiedRule(r: Request, updated: Time, parse: string -> Option<Time>)
    requires RequestValues(r, "If-Modified-Since") != []
    ensures var since := parse(RequestValues(r, "If-Modified-Since")[0]);
      && (since.Some? ==> (NotModified(r, updated, parse) <==> updated < TruncateToSecond(since.value) + Second))
      && (since.None? ==> (NotModified(r, updated, parse) <==> updated < Second))
  {
    var since := parse(RequestValues(r, "If-Modified-Since")[0]);
    TruncatedNotAfter(updated, since.GetOr(Zero));
    assert TruncateToSecond(Zero) == 0;
  }

  /** `Accept-Encoding: x-gzip, deflate` counts as accepting gzip: the test is a substring test. */
  lemma GzipSubstringExample(h: HeaderMap)
    requires Values(h, "Accept-Encoding") == ["x-gzip, deflate"]
    ensures ClientAcceptsGzip(Request("", Some(h)))
  {
    assert OccursAt(RequestGet(Request("", Some(h)), "Accept-Encoding"), "gzip", 2);
    ClientAcceptsGzipIff(Request("", Some(h)));
  }

  /** A request with no header map never accepts gzip. */
  lemma NoHeaderNoGzip(remoteAddr: string)
    ensures !ClientAcceptsGzip(Request(remoteAddr, None))
  {
  }
}
