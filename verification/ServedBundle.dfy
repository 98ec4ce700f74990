/** What is served after a bundle was set: every module and endpoint of the bundle, and nothing else. */
module ServedBundle {
  import Outcomes
  import opened JsApp

  // ---------------------------------------------------------------- what is accepted

  /** The fields of an endpoint that are checked against fixed values, and the module it names. */
  ghost predicate IsAcceptable(b: Bundle, info: Info) {
    && (info.mode == "readwrite" || info.mode == "readonly" || info.mode == "historical")
    && (info.forwardingRequired == "sometimes" || info.forwardingRequired == "always"
        || info.forwardingRequired == "never")
    && (info.redirectionStrategy == Outcomes.None || info.redirectionStrategy == Outcomes.Some("none")
        || info.redirectionStrategy == Outcomes.Some("to_primary")
        || info.redirectionStrategy == Outcomes.Some("to_backup"))
    && exists text :: (info.jsModule, text) in b.modules
  }

  lemma HasModuleIff(b: Bundle, name: string)
    ensures HasModule(b, name) <==> exists text :: (name, text) in b.modules
  {
    if HasModule(b, name) {
      var i :| 0 <= i < |b.modules| && b.modules[i].0 == name;
      assert (name, b.modules[i].1) in b.modules;
    }
    if text :| (name, text) in b.modules {
      var i :| 0 <= i < |b.modules| && b.modules[i] == (name, text);
    }
  }

  /** A bundle validates exactly when every method of every URL is acceptable. */
  lemma IsValidIff(b: Bundle)
    ensures IsValid(b) <==>
            forall url, methods, m: Method | (url, methods) in b.endpoints && m in methods :: IsAcceptable(b, m.info)
  {
    forall info ensures IsValidInfo(b, info) <==> IsAcceptable(b, info) {
      HasModuleIff(b, info.jsModule);
    }
    if IsValid(b) {
      forall url, methods, m: Method | (url, methods) in b.endpoints && m in methods ensures IsAcceptable(b, m.info) {
        var i :| 0 <= i < |b.endpoints| && b.endpoints[i] == (url, methods);
        var j :| 0 <= j < |methods| && methods[j] == m;
        assert IsValidInfo(b, b.endpoints[i].1[j].info);
      }
    }
    if forall url, methods, m: Method | (url, methods) in b.endpoints && m in methods :: IsAcceptable(b, m.info) {
      forall i, j | 0 <= i < |b.endpoints| && 0 <= j < |b.endpoints[i].1|
        ensures IsValidInfo(b, b.endpoints[i].1[j].info)
      {
        assert (b.endpoints[i].0, b.endpoints[i].1) in b.endpoints && b.endpoints[i].1[j] in b.endpoints[i].1;
      }
    }
  }

  // ---------------------------------------------------------------- what is served

  /** No later module of the bundle has the name of module number `i`. */
  ghost predicate IsLastModule(b: Bundle, i: int) {
    0 <= i < |b.modules| && forall j | i < j < |b.modules| :: b.modules[j].0 != b.modules[i].0
  }

  lemma SlashIsInjective(a: string, b: string)
    ensures "/" + a == "/" + b <==> a == b
  {
    assert ("/" + a)[1..] == a && ("/" + b)[1..] == b;
  }

  /** The modules table holds the last module of every name, under a slash and the name, and nothing else. */
  lemma ModulesServed(s: State, upper: string -> string, b: Bundle)
    requires Holds(s, upper, b)
    ensures forall i | IsLastModule(b, i) ::
              "/" + b.modules[i].0 in s.modules && s.modules["/" + b.modules[i].0] == b.modules[i].1
    ensures forall path | path in s.modules ::
              exists i :: IsLastModule(b, i) && path == "/" + b.modules[i].0
  {
    var writes := ModuleWrites(b.modules);
    assert |writes| == |b.modules|;
    forall i, j | 0 <= i < |b.modules| && 0 <= j < |b.modules|
      ensures writes[i].0 == writes[j].0 <==> b.modules[i].0 == b.modules[j].0
    {
      SlashIsInjective(b.modules[i].0, b.modules[j].0);
    }
    forall i | IsLastModule(b, i)
      ensures "/" + b.modules[i].0 in s.modules && s.modules["/" + b.modules[i].0] == b.modules[i].1
    {
      var path := writes[i].0;
      assert path == "/" + b.modules[i].0;
      var k :| IsLastWrite(writes, k, path, s.modules[path]);
    }
    forall path | path in s.modules ensures exists i :: IsLastModule(b, i) && path == "/" + b.modules[i].0 {
      var k :| IsLastWrite(writes, k, path, s.modules[path]);
      assert writes[k].0 == "/" + b.modules[k].0;
      assert IsLastModule(b, k);
    }
  }

  /** Method number `j` of URL number `i`. */
  predicate IsPlace(b: Bundle, i: int, j: int) {
    0 <= i < |b.endpoints| && 0 <= j < |b.endpoints[i].1|
  }

  predicate IsLaterPlace(i: int, j: int, i2: int, j2: int) {
    i < i2 || (i == i2 && j < j2)
  }

  /** How the endpoint at a place is asked for: its method in upper case, a blank and its URL. */
  function RequestLine(upper: string -> string, b: Bundle, i: int, j: int): string
    requires IsPlace(b, i, j)
  {
    upper(b.endpoints[i].1[j].name) + " " + b.endpoints[i].0
  }

  /** What is served there: all that was recorded, its module with a slash in front. */
  function Served(b: Bundle, i: int, j: int): Info
    requires IsPlace(b, i, j)
  {
    var info := b.endpoints[i].1[j].info;
    Info("/" + info.jsModule, info.mode, info.forwardingRequired, info.redirectionStrategy, info.rest)
  }

  /** No later place of the bundle is asked for in the same words. */
  ghost predicate IsLastPlace(upper: string -> string, b: Bundle, i: int, j: int) {
    && IsPlace(b, i, j)
    && forall i2, j2 | IsPlace(b, i2, j2) && IsLaterPlace(i, j, i2, j2) ::
         RequestLine(upper, b, i2, j2) != RequestLine(upper, b, i, j)
  }

  /** Where the write for a place stands. */
  function WriteIndex(upper: string -> string, b: Bundle, i: int, j: int): int
    requires IsPlace(b, i, j)
  {
    |EndpointWrites(upper, b.endpoints[..i])| + j
  }

  lemma {:induction false} WritesGrow(upper: string -> string, b: Bundle, i: nat, n: nat)
    requires i <= n <= |b.endpoints|
    ensures EndpointWrites(upper, b.endpoints[..i]) <= EndpointWrites(upper, b.endpoints[..n])
    decreases n
  {
    if i == n {
    } else {
      WritesGrow(upper, b, i, n - 1);
      assert b.endpoints[..n][..n - 1] == b.endpoints[..n - 1];
    }
  }

  lemma OneUrlMore(upper: string -> string, b: Bundle, i: nat)
    requires i < |b.endpoints|
    ensures EndpointWrites(upper, b.endpoints[..i + 1])
            == EndpointWrites(upper, b.endpoints[..i]) + MethodWrites(upper, b.endpoints[i].0, b.endpoints[i].1)
  {
    assert b.endpoints[..i + 1][..i] == b.endpoints[..i];
  }

  /** At its index stands what is written for a place. */
  lemma WriteAtIndex(upper: string -> string, b: Bundle, i: int, j: int)
    requires IsPlace(b, i, j)
    ensures var writes, at := EndpointWrites(upper, b.endpoints), WriteIndex(upper, b, i, j);
            && 0 <= at < |EndpointWrites(upper, b.endpoints[..i + 1])| <= |writes|
            && writes[at] == (RequestLine(upper, b, i, j), Served(b, i, j))
  {
    OneUrlMore(upper, b, i);
    WritesGrow(upper, b, i + 1, |b.endpoints|);
    assert b.endpoints[..|b.endpoints|] == b.endpoints;
    assert EndpointWrites(upper, b.endpoints[..i + 1])[WriteIndex(upper, b, i, j)]
           == MethodWrites(upper, b.endpoints[i].0, b.endpoints[i].1)[j];
  }

  /** Every write stands at the index of some place. */
  lemma {:induction false} PlaceOfIndex(upper: string -> string, b: Bundle, n: nat, at: nat) returns (i: int, j: int)
    requires n <= |b.endpoints| && at < |EndpointWrites(upper, b.endpoints[..n])|
    ensures IsPlace(b, i, j) && WriteIndex(upper, b, i, j) == at
    decreases n
  {
    assert n > 0;
    OneUrlMore(upper, b, n - 1);
    var before := |EndpointWrites(upper, b.endpoints[..n - 1])|;
    if at < before {
      i, j := PlaceOfIndex(upper, b, n - 1, at);
    } else {
      i, j := n - 1, at - before;
    }
  }

  /** Later places are written later. */
  lemma LaterIsWrittenLater(upper: string -> string, b: Bundle, i: int, j: int, i2: int, j2: int)
    requires IsPlace(b, i, j) && IsPlace(b, i2, j2)
    ensures IsLaterPlace(i, j, i2, j2) <==> WriteIndex(upper, b, i, j) < WriteIndex(upper, b, i2, j2)
  {
    OneUrlMore(upper, b, i);
    OneUrlMore(upper, b, i2);
    if i < i2 { WritesGrow(upper, b, i + 1, i2); }
    if i2 < i { WritesGrow(upper, b, i2 + 1, i); }
  }

  lemma LastPlaceIsLastWrite(upper: string -> string, b: Bundle, i: int, j: int)
    requires IsPlace(b, i, j)
    ensures IsLastPlace(upper, b, i, j) <==>
            IsLastWrite(EndpointWrites(upper, b.endpoints), WriteIndex(upper, b, i, j),
                        RequestLine(upper, b, i, j), Served(b, i, j))
  {
    var writes, at := EndpointWrites(upper, b.endpoints), WriteIndex(upper, b, i, j);
    WriteAtIndex(upper, b, i, j);
    if IsLastPlace(upper, b, i, j) {
      forall k | at < k < |writes| ensures writes[k].0 != RequestLine(upper, b, i, j) {
        assert b.endpoints[..|b.endpoints|] == b.endpoints;
        var i2, j2 := PlaceOfIndex(upper, b, |b.endpoints|, k);
        WriteAtIndex(upper, b, i2, j2);
        LaterIsWrittenLater(upper, b, i, j, i2, j2);
      }
    } else {
      var i2, j2 :| IsPlace(b, i2, j2) && IsLaterPlace(i, j, i2, j2)
                    && RequestLine(upper, b, i2, j2) == RequestLine(upper, b, i, j);
      WriteAtIndex(upper, b, i2, j2);
      LaterIsWrittenLater(upper, b, i, j, i2, j2);
    }
  }

  /**
   The endpoints table holds, for every method and URL of the bundle, what the last such entry records, with a
   slash before its module, and nothing else.
  */
  lemma EndpointsServed(s: State, upper: string -> string, b: Bundle)
    requires Holds(s, upper, b)
    ensures forall i, j | IsLastPlace(upper, b, i, j) ::
              RequestLine(upper, b, i, j) in s.endpoints
              && s.endpoints[RequestLine(upper, b, i, j)] == Served(b, i, j)
    ensures forall k | k in s.endpoints ::
              exists i, j :: IsLastPlace(upper, b, i, j) && k == RequestLine(upper, b, i, j)
  {
    var writes := EndpointWrites(upper, b.endpoints);
    forall i, j | IsLastPlace(upper, b, i, j)
      ensures RequestLine(upper, b, i, j) in s.endpoints
      ensures s.endpoints[RequestLine(upper, b, i, j)] == Served(b, i, j)
    {
      LastPlaceIsLastWrite(upper, b, i, j);
      WriteAtIndex(upper, b, i, j);
      var line := RequestLine(upper, b, i, j);
      var k :| IsLastWrite(writes, k, line, s.endpoints[line]);
    }
    forall k | k in s.endpoints ensures exists i, j :: IsLastPlace(upper, b, i, j) && k == RequestLine(upper, b, i, j) {
      var at :| IsLastWrite(writes, at, k, s.endpoints[k]);
      assert b.endpoints[..|b.endpoints|] == b.endpoints;
      var i, j := PlaceOfIndex(upper, b, |b.endpoints|, at);
      WriteAtIndex(upper, b, i, j);
      LastPlaceIsLastWrite(upper, b, i, j);
    }
  }
}
