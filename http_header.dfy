/** Header multimaps as the proxy handler of main.go uses them, and the two
    header-copying loops of that handler. */
module HttpHeader {

  /** Go's http.Header: each header name maps to its values, in order. */
  type Header = map<string, seq<string>>

  /** The values stored under `name`; Go's nil slice for an absent name. */
  function Values(h: Header, name: string): seq<string>
  {
    if name in h then h[name] else []
  }

  /** Header.Add: `value` joins the end of the values of `name`; every other
      name keeps its values. Names are taken as already canonical. */
  function Add(h: Header, name: string, value: string): (r: Header)
    ensures name in r && r[name] == Values(h, name) + [value]
    ensures forall n :: n != name ==> (n in r <==> n in h)
    ensures forall n :: n != name && n in h ==> r[n] == h[n]
  {
    h[name := Values(h, name) + [value]]
  }

  /** The seven names the request loop skips. */
  const HopByHopNames: set<string> :=
    {"Connection", "Proxy-Authenticate", "Proxy-Authorization", "Te", "Trailers", "Transfer-Encoding", "Upgrade"}

  /** The test of the request loop, compared exactly as written: no case
      folding, and no other hop-by-hop name. */
  predicate IsHopByHop(name: string): (b: bool)
    ensures b <==> name in HopByHopNames
  {
    || name == "Connection"
    || name == "Proxy-Authenticate"
    || name == "Proxy-Authorization"
    || name == "Te"
    || name == "Trailers"
    || name == "Transfer-Encoding"
    || name == "Upgrade"
  }

  /** What the request loop builds from the inbound header `src`: every
      name outside the seven with at least one value, all values in order. */
  ghost function Forwarded(src: Header): Header
  {
    map n | n in src && !IsHopByHop(n) && src[n] != [] :: src[n]
  }

  /** What the response loop leaves in `dst` after copying `src` into it:
      the values of `src` follow any that `dst` already held. */
  ghost function Appended(dst: Header, src: Header): Header
  {
    map n | n in dst.Keys + src.Keys && (n in dst || src[n] != []) ::
      Values(dst, n) + Values(src, n)
  }

  /** The same as `Forwarded`, restricted to the names in `done`. */
  ghost function ForwardedOn(src: Header, done: set<string>): Header
  {
    map n | n in done && n in src && !IsHopByHop(n) && src[n] != [] :: src[n]
  }

  /** The same as `Appended`, restricted to the names of `src` in `done`. */
  ghost function AppendedOn(dst: Header, src: Header, done: set<string>): Header
  {
    map n | n in dst.Keys + (done * src.Keys) && (n in dst || src[n] != []) ::
      if n in done && n in src then Values(dst, n) + src[n] else dst[n]
  }

  /** Handling one more name of `src` in the request loop. */
  lemma ForwardedOnStep(src: Header, done: set<string>, name: string)
    requires name in src && name !in done
    ensures name !in ForwardedOn(src, done)
    ensures ForwardedOn(src, done + {name}) ==
      if !IsHopByHop(name) && src[name] != [] then ForwardedOn(src, done)[name := src[name]]
      else ForwardedOn(src, done)
  {
  }

  /** Handling one more name of `src` in the response loop. */
  lemma AppendedOnStep(dst: Header, src: Header, done: set<string>, name: string)
    requires name in src && name !in done
    ensures Values(AppendedOn(dst, src, done), name) == Values(dst, name)
    ensures AppendedOn(dst, src, done + {name}) ==
      if src[name] != [] then AppendedOn(dst, src, done)[name := Values(dst, name) + src[name]]
      else AppendedOn(dst, src, done)
  {
    var before := AppendedOn(dst, src, done);
    var after := AppendedOn(dst, src, done + {name});
    var expected := if src[name] != [] then before[name := Values(dst, name) + src[name]] else before;
    assert after.Keys == expected.Keys;
    forall n | n in after ensures after[n] == expected[n] {
      if n == name && src[name] == [] {
        assert Values(dst, name) + src[name] == dst[name];
      }
    }
  }

  lemma AppendedOnNone(dst: Header, src: Header)
    ensures AppendedOn(dst, src, {}) == dst
  {
  }

  lemma AppendedOnAll(dst: Header, src: Header)
    ensures AppendedOn(dst, src, src.Keys) == Appended(dst, src)
  {
    forall n | n in dst && n !in src
      ensures AppendedOn(dst, src, src.Keys)[n] == Appended(dst, src)[n]
    {
      assert Values(dst, n) + Values(src, n) == dst[n];
    }
  }

  /** The inner loop of both copies: every value of `values`, in order,
      is added under `name`. */
  method AddValues(h: Header, name: string, values: seq<string>) returns (r: Header)
    ensures values == [] ==> r == h
    ensures values != [] ==> r == h[name := Values(h, name) + values]
  {
    r := h;
    var i := 0;
    while i < |values|
      invariant 0 <= i <= |values|
      invariant i == 0 ==> r == h
      invariant i > 0 ==> r == h[name := Values(h, name) + values[..i]]
    {
      assert values[..i + 1] == values[..i] + [values[i]];
      assert Values(r, name) == Values(h, name) + values[..i];
      assert Values(r, name) + [values[i]] == Values(h, name) + values[..i + 1];
      r := Add(r, name, values[i]);
      i := i + 1;
    }
    assert values[..i] == values;
  }

  /** The request loop (main.go): starting from the empty header of a new
      request, every inbound name is visited once in the map's unspecified
      order; the seven hop-by-hop names are skipped and the values of every
      other name are added one by one. */
  method ForwardRequestHeaders(src: Header) returns (out: Header)
    ensures out == Forwarded(src)
    ensures forall n :: IsHopByHop(n) ==> n !in out
    ensures forall n :: n in src && !IsHopByHop(n) && src[n] != [] ==> n in out && out[n] == src[n]
    ensures forall n :: n in out ==> n in src && out[n] == src[n]
  {
    out := map[];
    var todo := src.Keys;
    while todo != {}
      invariant todo <= src.Keys
      invariant out == ForwardedOn(src, src.Keys - todo)
      decreases |todo|
    {
      var name :| name in todo;
      ghost var done := src.Keys - todo;
      ForwardedOnStep(src, done, name);
      if !IsHopByHop(name) {
        assert Values(out, name) + src[name] == src[name];
        out := AddValues(out, name, src[name]);
      }
      todo := todo - {name};
      assert src.Keys - todo == done + {name};
    }
    assert src.Keys - todo == src.Keys;
  }

  /** The response loop (main.go): every name of `src` is visited once and
      all of its values are added to `dst`, with no name filtered out. */
  method CopyResponseHeaders(dst: Header, src: Header) returns (out: Header)
    ensures out == Appended(dst, src)
  {
    out := dst;
    var todo := src.Keys;
    AppendedOnNone(dst, src);
    while todo != {}
      invariant todo <= src.Keys
      invariant out == AppendedOn(dst, src, src.Keys - todo)
      decreases |todo|
    {
      var name :| name in todo;
      ghost var done := src.Keys - todo;
      AppendedOnStep(dst, src, done, name);
      out := AddValues(out, name, src[name]);
      todo := todo - {name};
      assert src.Keys - todo == done + {name};
    }
    assert src.Keys - todo == src.Keys;
    AppendedOnAll(dst, src);
  }

  // ---------------------------------------------------------------------
  // Properties of the two copies

  /** Only the seven names are filtered: hop-by-hop names outside them, in
      the canonical spelling the server delivers, pass through. */
  lemma ExactNames()
    ensures IsHopByHop("Connection") && IsHopByHop("Te") && IsHopByHop("Upgrade")
    ensures !IsHopByHop("Trailer") && !IsHopByHop("Keep-Alive") && !IsHopByHop("Proxy-Connection")
  {
  }

  /** The response copy loses nothing: every value of `src` follows the
      values `dst` already held, and no name is invented. */
  lemma AppendedKeepsAll(dst: Header, src: Header)
    ensures forall n :: n in src && src[n] != [] ==> n in Appended(dst, src) && Appended(dst, src)[n] == Values(dst, n) + src[n]
    ensures forall n :: n in dst ==> n in Appended(dst, src) && Appended(dst, src)[n][..|dst[n]|] == dst[n]
    ensures forall n :: n in Appended(dst, src) ==> n in dst || n in src
  {
    forall n | n in dst ensures Appended(dst, src)[n][..|dst[n]|] == dst[n] {
      assert (dst[n] + Values(src, n))[..|dst[n]|] == dst[n];
    }
  }

  /** Filtering twice removes nothing more. */
  lemma ForwardedIdempotent(src: Header)
    ensures Forwarded(Forwarded(src)) == Forwarded(src)
  {
  }

  /** The response copy into an empty header is the request copy without
      its filter: both drop only the names with no values, and the request
      copy then also drops the seven hop-by-hop names. */
  lemma ForwardedIsFilteredCopy(src: Header)
    ensures forall n :: n in Forwarded(src) <==> n in Appended(map[], src) && !IsHopByHop(n)
    ensures forall n :: n in Forwarded(src) ==> Forwarded(src)[n] == Appended(map[], src)[n]
  {
  }

  /** A header with no hop-by-hop name and no empty value list reaches the
      target unchanged. */
  lemma ForwardedKeepsClean(src: Header)
    requires forall n :: n in src ==> !IsHopByHop(n) && src[n] != []
    ensures Forwarded(src) == src
  {
  }
}
