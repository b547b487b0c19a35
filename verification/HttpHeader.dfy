/** http.Header: a map from canonical names to lists of values; and the response fields of a Context. */
module HttpHeader {
  import opened Text

  type Header = map<Bytes, seq<Bytes>>

  // Names, as http.Header holds them.
  const ACCEPT_ENCODING := Ascii("Accept-Encoding")
  const AGE := Ascii("Age")
  const ALLOW := Ascii("Allow")
  const CACHE_CONTROL := Ascii("Cache-Control")
  const CONTENT_ENCODING := Ascii("Content-Encoding")
  const CONTENT_LENGTH := Ascii("Content-Length")
  const CONTENT_TYPE := Ascii("Content-Type")
  const ETAG := Ascii("Etag")
  const IF_MODIFIED_SINCE := Ascii("If-Modified-Since")
  const IF_NONE_MATCH := Ascii("If-None-Match")
  const LAST_MODIFIED := Ascii("Last-Modified")
  const SET_COOKIE := Ascii("Set-Cookie")
  const TRANSFER_ENCODING := Ascii("Transfer-Encoding")
  const VARY := Ascii("Vary")
  const X_CACHE := Ascii("X-Cache")

  /** A Cache-Control directive of requests and responses. */
  const NO_CACHE := Ascii("no-cache")

  /** h[k], with nil for an absent key. */
  function ValuesOf(h: Header, k: Bytes): seq<Bytes> {
    if k in h then h[k] else []
  }

  /** h.Get(k) for a name written in canonical form, as every header name constant is. */
  function First(h: Header, k: Bytes): Bytes {
    var vs := ValuesOf(h, k);
    if vs == [] then [] else vs[0]
  }

  /** Context.SetHeader for such a name: an empty value deletes the header. */
  function Put(h: Header, k: Bytes, value: Bytes): Header {
    if value == [] then h - {k} else h[k := [value]]
  }

  /** h.Add */
  function Add(h: Header, name: Bytes, value: Bytes): Header {
    h[Canonical(name) := ValuesOf(h, Canonical(name)) + [value]]
  }

  function AddAll(h: Header, name: Bytes, values: seq<Bytes>): Header
    decreases |values|
  {
    if values == [] then h else AddAll(Add(h, name, values[0]), name, values[1..])
  }

  /** Adding a list of values appends it to what is there, and an empty list leaves no trace. */
  lemma {:induction false} AddAllAppends(h: Header, name: Bytes, values: seq<Bytes>)
    ensures AddAll(h, name, values) ==
            if values == [] then h else h[Canonical(name) := ValuesOf(h, Canonical(name)) + values]
    decreases |values|
  {
    if values != [] {
      var h1, rest, before := Add(h, name, values[0]), values[1..], ValuesOf(h, Canonical(name));
      AddAllAppends(h1, name, rest);
      if rest == [] {
        assert values == [values[0]];
      } else {
        assert ValuesOf(h1, Canonical(name)) == before + [values[0]];
        assert before + [values[0]] + rest == before + values;
        assert h1[Canonical(name) := before + values] == h[Canonical(name) := before + values];
      }
    }
  }

  // ---------------------------------------------------------------------------------------------
  // Responses

  /** The Body field of a Context: nil, an io.Reader, or some other value. */
  datatype Body = NoBody | Reader | Value(id: int)

  /** The response fields of a Context; a nil BodyBuffer is None. */
  datatype Reply = Reply(header: Header, statusCode: int, bodyBuffer: Option<Bytes>, body: Body)
}
