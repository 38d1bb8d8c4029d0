/**
 * The part of Go's `net/http` the handler touches: header maps, the status
 * constants, the incoming request's headers and the server's response writer.
 */
module NetHttp {
  import opened Wrappers

  const StatusOK := 200
  const StatusNotModified := 304
  const StatusNotFound := 404
  const StatusInternalServerError := 500

  /** `http.Header`: each key carries a list of values. */
  type HeaderMap = map<string, seq<string>>

  /** One header line, as a key and a value. */
  type HeaderLine = (string, string)

  /** The values of `key`; a missing key has none. */
  function Values(h: HeaderMap, key: string): seq<string>
  {
    if key in h then h[key] else []
  }

  /** Two header maps with the same keys and the same values for every key are the same map. */
  lemma HeaderMapsEqual(a: HeaderMap, b: HeaderMap)
    requires forall key :: (key in a <==> key in b) && Values(a, key) == Values(b, key)
    ensures a == b
  {
    assert a.Keys == b.Keys;
    forall key | key in a
      ensures a[key] == b[key]
    {
      assert Values(a, key) == Values(b, key);
    }
  }

  /** `h.Add(key, value)`: appends `value` to the values of `key` and touches no other key. */
  function Add(h: HeaderMap, key: string, value: string): HeaderMap
  {
    h[key := Values(h, key) + [value]]
  }

  /** After `Add`, `key` holds one value more and every other key is as it was. */
  lemma AddValues(h: HeaderMap, key: string, value: string, k: string)
    ensures k in Add(h, key, value) <==> k in h || k == key
    ensures Values(Add(h, key, value), k) == Values(h, k) + (if k == key then [value] else [])
  {
  }

  /** `h.Set(key, value)`: replaces the values of `key` by the one `value`. */
  function Set(h: HeaderMap, key: string, value: string): (r: HeaderMap)
    ensures r.Keys == h.Keys + {key}
    ensures Values(r, key) == [value]
    ensures forall k :: k != key ==> Values(r, k) == Values(h, k)
  {
    h[key := [value]]
  }

  /** `h.Get(key)` for a key already in canonical form: the first value, or "". */
  function Get(h: HeaderMap, key: string): (v: string)
    ensures |Values(h, key)| > 0 ==> v == Values(h, key)[0]
    ensures |Values(h, key)| == 0 ==> v == ""
  {
    var vs := Values(h, key);
    if |vs| > 0 then vs[0] else ""
  }

  /** The header map after adding `lines` one after another. */
  function AddAll(h: HeaderMap, lines: seq<HeaderLine>): HeaderMap
    decreases lines
  {
    if lines == [] then h else AddAll(Add(h, lines[0].0, lines[0].1), lines[1..])
  }

  /** Adding a list of no lines changes nothing; a list of one line is one `Add`. */
  lemma AddAllShort(h: HeaderMap, lines: seq<HeaderLine>)
    requires |lines| <= 1
    ensures AddAll(h, lines) == if lines == [] then h else Add(h, lines[0].0, lines[0].1)
  {
    if lines != [] {
      assert lines[1..] == [];
    }
  }

  /** The values `lines` gives `key`, in order. */
  function ValuesIn(lines: seq<HeaderLine>, key: string): seq<string>
  {
    if lines == [] then []
    else (if lines[0].0 == key then [lines[0].1] else []) + ValuesIn(lines[1..], key)
  }

  /** Adding a list of lines appends, to each key, exactly the values the list gives it. */
  lemma {:induction false} AddAllValues(h: HeaderMap, lines: seq<HeaderLine>, key: string)
    ensures Values(AddAll(h, lines), key) == Values(h, key) + ValuesIn(lines, key)
    decreases lines
  {
    if lines != [] {
      var line := lines[0];
      var first := if line.0 == key then [line.1] else [];
      var h1 := Add(h, line.0, line.1);
      AddAllValues(h1, lines[1..], key);
      assert AddAll(h, lines) == AddAll(h1, lines[1..]);
      assert Values(h1, key) == Values(h, key) + first by {
        AddValues(h, line.0, line.1, key);
      }
      assert ValuesIn(lines, key) == first + ValuesIn(lines[1..], key);
      assert (Values(h, key) + first) + ValuesIn(lines[1..], key) == Values(h, key) + (first + ValuesIn(lines[1..], key));
    }
  }

  /** Adding two lists in turn is adding their concatenation. */
  lemma {:induction false} AddAllAppend(h: HeaderMap, a: seq<HeaderLine>, b: seq<HeaderLine>)
    ensures AddAll(h, a + b) == AddAll(AddAll(h, a), b)
    decreases a
  {
    if a == [] {
      assert a + b == b;
    } else {
      assert (a + b)[1..] == a[1..] + b;
      AddAllAppend(Add(h, a[0].0, a[0].1), a[1..], b);
    }
  }

  /** The values a concatenation of lists gives a key are those of the first list, then the second. */
  lemma {:induction false} ValuesInAppend(a: seq<HeaderLine>, b: seq<HeaderLine>, key: string)
    ensures ValuesIn(a + b, key) == ValuesIn(a, key) + ValuesIn(b, key)
  {
    if a != [] {
      assert (a + b)[1..] == a[1..] + b;
      ValuesInAppend(a[1..], b, key);
    } else {
      assert a + b == b;
    }
  }

  /**
   * The incoming request as the handler reads it: the transport-level remote
   * address and the header map, which Go allows to be nil (None).
   */
  datatype Request = Request(remoteAddr: string, header: Option<HeaderMap>)

  /** `r.Header[key]`: indexing a nil map yields no values. */
  function RequestValues(r: Request, key: string): seq<string>
  {
    match r.header
    case None => []
    case Some(h) => Values(h, key)
  }

  /** `r.Header.Get(key)` for a key already in canonical form. */
  function RequestGet(r: Request, key: string): string
  {
    match r.header
    case None => ""
    case Some(h) => Get(h, key)
  }

  /** `Header.Get` on the request: the first value of `key`, or "" when it has none or there is no header map. */
  lemma RequestGetFirst(r: Request, key: string)
    ensures RequestGet(r, key) == if |RequestValues(r, key)| > 0 then RequestValues(r, key)[0] else ""
  {
  }

  /**
   * The server's `http.ResponseWriter` for one request: the header map, the
   * status line once it is sent (the first `WriteHeader` wins, and a body
   * write before any sends 200), and the body written so far.
   */
  class ResponseWriter {
    var header: HeaderMap
    var code: Option<int>
    var body: string

    constructor ()
      ensures header == map[] && code == None && body == ""
    {
      header := map[];
      code := None;
      body := "";
    }

    /** `WriteHeader(status)`: a second call is superfluous and ignored. */
    method WriteHeader(status: int)
      modifies this
      ensures code == if old(code).None? then Some(status) else old(code)
      ensures header == old(header) && body == old(body)
    {
      if code.None? {
        code := Some(status);
      }
    }

    /** `Write(data)`: sends 200 first when no status has been sent. */
    method Write(data: string)
      modifies this
      ensures code == Some(old(code).GetOr(StatusOK))
      ensures body == old(body) + data
      ensures header == old(header)
    {
      if code.None? {
        code := Some(StatusOK);
      }
      body := body + data;
    }
  }
}
