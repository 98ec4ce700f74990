/** The application tables: modules by path, and endpoints by method and URL. */
module JsApp {
  import Outcomes

  /** An endpoint's module, its three enumerated fields, and everything else recorded for it. */
  datatype Info = Info(
    jsModule: string,
    mode: string,
    forwardingRequired: string,
    redirectionStrategy: Outcomes.Option<string>,
    rest: string)

  datatype Method = Method(name: string, info: Info)

  /** The objects of a bundle list their entries in order; method names are not yet in upper case. */
  datatype Bundle = Bundle(modules: seq<(string, string)>, endpoints: seq<(string, seq<Method>)>)

  datatype State = State(modules: map<string, string>, endpoints: map<string, Info>)

  datatype Step = SetJsApp(bundle: Bundle) | RemoveJsApp

  predicate HasModule(b: Bundle, name: string) {
    exists i | 0 <= i < |b.modules| :: b.modules[i].0 == name
  }

  /** Every enumerated field has one of its values. */
  predicate HasLegalFields(info: Info) {
    && info.mode in ["readwrite", "readonly", "historical"]
    && info.forwardingRequired in ["sometimes", "always", "never"]
    && (info.redirectionStrategy.Some? ==> info.redirectionStrategy.value in ["none", "to_primary", "to_backup"])
  }

  predicate IsValidInfo(b: Bundle, info: Info) {
    HasLegalFields(info) && HasModule(b, info.jsModule)
  }

  /** Every endpoint has legal fields and names a module of the bundle. */
  predicate IsValid(b: Bundle) {
    forall i, j | 0 <= i < |b.endpoints| && 0 <= j < |b.endpoints[i].1| :: IsValidInfo(b, b.endpoints[i].1[j].info)
  }

  function PathOf(name: string): string {
    "/" + name
  }

  /** What is written, in order. */
  function ModuleWrites(modules: seq<(string, string)>): seq<(string, string)> {
    seq(|modules|, i requires 0 <= i < |modules| => (PathOf(modules[i].0), modules[i].1))
  }

  function EndpointKey(upper: string -> string, name: string, url: string): string {
    upper(name) + " " + url
  }

  function MethodWrites(upper: string -> string, url: string, methods: seq<Method>): seq<(string, Info)> {
    seq(|methods|, i requires 0 <= i < |methods| =>
      (EndpointKey(upper, methods[i].name, url), methods[i].info.(jsModule := PathOf(methods[i].info.jsModule))))
  }

  function EndpointWrites(upper: string -> string, endpoints: seq<(string, seq<Method>)>): seq<(string, Info)> {
    if endpoints == [] then []
    else
      var last := |endpoints| - 1;
      EndpointWrites(upper, endpoints[..last]) + MethodWrites(upper, endpoints[last].0, endpoints[last].1)
  }

  ghost predicate IsLastWrite<V>(writes: seq<(string, V)>, i: int, k: string, v: V) {
    0 <= i < |writes| && writes[i] == (k, v) && forall j | i < j < |writes| :: writes[j].0 != k
  }

  /** `table` is what the writes leave of an empty one: for each key, the last value written under it. */
  ghost predicate LastWriterWins<V>(table: map<string, V>, writes: seq<(string, V)>) {
    && (forall i | 0 <= i < |writes| :: writes[i].0 in table)
    && (forall k | k in table :: exists i :: IsLastWrite(writes, i, k, table[k]))
  }

  lemma LastWriteUnique<V>(a: map<string, V>, b: map<string, V>, writes: seq<(string, V)>)
    requires LastWriterWins(a, writes) && LastWriterWins(b, writes)
    ensures a == b
  {
    forall k ensures k in a <==> k in b {
      if k in a { var i :| IsLastWrite(writes, i, k, a[k]); }
      if k in b { var i :| IsLastWrite(writes, i, k, b[k]); }
    }
    forall k | k in a ensures a[k] == b[k] {
      var i :| IsLastWrite(writes, i, k, a[k]);
      var j :| IsLastWrite(writes, j, k, b[k]);
    }
  }

  lemma WriteOne<V>(table: map<string, V>, writes: seq<(string, V)>, k: string, v: V)
    requires LastWriterWins(table, writes)
    ensures LastWriterWins(table[k := v], writes + [(k, v)])
  {
    var after, longer := table[k := v], writes + [(k, v)];
    forall x | x in after ensures exists i :: IsLastWrite(longer, i, x, after[x]) {
      if x == k {
        assert IsLastWrite(longer, |writes|, k, v);
      } else {
        var i :| IsLastWrite(writes, i, x, table[x]);
        assert IsLastWrite(longer, i, x, after[x]);
      }
    }
  }

  /** The tables hold exactly one bundle. */
  ghost predicate Holds(s: State, upper: string -> string, b: Bundle) {
    && LastWriterWins(s.modules, ModuleWrites(b.modules))
    && LastWriterWins(s.endpoints, EndpointWrites(upper, b.endpoints))
  }

  /** Every stored endpoint has legal fields, and its module is a stored module. */
  ghost predicate Intact(s: State) {
    forall k | k in s.endpoints :: HasLegalFields(s.endpoints[k]) && s.endpoints[k].jsModule in s.modules
  }

  /** What is written for an endpoint of the bundle. */
  ghost predicate ComesFrom(b: Bundle, written: Info) {
    exists info :: IsValidInfo(b, info) && written == info.(jsModule := PathOf(info.jsModule))
  }

  lemma {:induction false} WritesComeFrom(upper: string -> string, b: Bundle, n: nat)
    requires IsValid(b) && n <= |b.endpoints|
    ensures forall w | w in EndpointWrites(upper, b.endpoints[..n]) :: ComesFrom(b, w.1)
  {
    if n == 0 {
    } else {
      WritesComeFrom(upper, b, n - 1);
      assert b.endpoints[..n][..n - 1] == b.endpoints[..n - 1];
      var url, methods := b.endpoints[n - 1].0, b.endpoints[n - 1].1;
      forall w | w in MethodWrites(upper, url, methods) ensures ComesFrom(b, w.1) {
        var j :| 0 <= j < |methods| && w == MethodWrites(upper, url, methods)[j];
        assert IsValidInfo(b, b.endpoints[n - 1].1[j].info);
      }
    }
  }

  /** Tables that hold a valid bundle are intact. */
  lemma HoldingIsIntact(s: State, upper: string -> string, b: Bundle)
    requires IsValid(b) && Holds(s, upper, b)
    ensures Intact(s)
  {
    WritesComeFrom(upper, b, |b.endpoints|);
    assert b.endpoints[..|b.endpoints|] == b.endpoints;
    var writes := EndpointWrites(upper, b.endpoints);
    forall k | k in s.endpoints
      ensures HasLegalFields(s.endpoints[k]) && s.endpoints[k].jsModule in s.modules
    {
      var i :| IsLastWrite(writes, i, k, s.endpoints[k]);
      assert writes[i] in writes;
      var info :| IsValidInfo(b, info) && writes[i].1 == info.(jsModule := PathOf(info.jsModule));
      var j :| 0 <= j < |b.modules| && b.modules[j].0 == info.jsModule;
      assert ModuleWrites(b.modules)[j].0 == PathOf(info.jsModule);
    }
  }

  /** One action: a bundle that does not validate changes nothing, a valid one replaces everything, removal empties. */
  ghost predicate Stepped(s: State, upper: string -> string, step: Step, t: State) {
    match step
    case SetJsApp(b) => if IsValid(b) then Holds(t, upper, b) else t == s
    case RemoveJsApp => t == State(map[], map[])
  }

  ghost predicate IsRun(states: seq<State>, upper: string -> string, steps: seq<Step>) {
    |states| == |steps| + 1 && forall i | 0 <= i < |steps| :: Stepped(states[i], upper, steps[i], states[i + 1])
  }

  /** After any run from empty tables, the tables are intact. */
  lemma {:induction false} RunStaysIntact(states: seq<State>, upper: string -> string, steps: seq<Step>, i: nat)
    requires IsRun(states, upper, steps) && states[0] == State(map[], map[]) && i <= |steps|
    ensures Intact(states[i])
  {
    if i == 0 {
    } else {
      RunStaysIntact(states, upper, steps, i - 1);
      assert Stepped(states[i - 1], upper, steps[i - 1], states[i]);
      if steps[i - 1].SetJsApp? && IsValid(steps[i - 1].bundle) {
        HoldingIsIntact(states[i], upper, steps[i - 1].bundle);
      }
    }
  }

  /** A step that changes the tables, or would. */
  predicate Counts(step: Step) {
    step.SetJsApp? ==> IsValid(step.bundle)
  }

  /** The tables hold exactly what the last counting step wrote, whatever came before it. */
  lemma {:induction false} TablesHoldLastBundle(
      states: seq<State>, upper: string -> string, steps: seq<Step>, last: nat, i: nat)
    requires IsRun(states, upper, steps) && last < i <= |steps|
    requires Counts(steps[last]) && forall j | last < j < i :: !Counts(steps[j])
    ensures Stepped(State(map[], map[]), upper, steps[last], states[i])
    decreases i
  {
    assert Stepped(states[i - 1], upper, steps[i - 1], states[i]);
    if last == i - 1 {
    } else {
      TablesHoldLastBundle(states, upper, steps, last, i - 1);
    }
  }

  /** The longer method name has the shorter one in front and a blank after it, and the URLs make up for the rest. */
  ghost predicate Overlaps(short: string, url: string, long: string, rest: string) {
    exists middle :: long == short + " " + middle && url == middle + " " + rest
  }

  lemma OverlapSharesKey(short: string, url: string, long: string, rest: string)
    requires |short| < |long|
    ensures short + " " + url == long + " " + rest <==> Overlaps(short, url, long, rest)
  {
    if short + " " + url == long + " " + rest {
      var key := long + " " + rest;
      assert key == short + " " + url && key[|short|] == ' ' && long[|short|] == ' ';
      var middle := long[|short| + 1..];
      assert long == key[..|long|] && short == key[..|short|];
      assert long == short + " " + middle;
      assert url == key[|short| + 1..] == middle + " " + rest;
    }
    if Overlaps(short, url, long, rest) {
      var middle :| long == short + " " + middle && url == middle + " " + rest;
      assert short + " " + (middle + " " + rest) == (short + " " + middle) + " " + rest;
    }
  }

  lemma SameLengthSharesKey(a: string, u: string, b: string, v: string)
    requires |a| == |b|
    ensures a + " " + u == b + " " + v <==> a == b && u == v
  {
    if a + " " + u == b + " " + v {
      var key := a + " " + u;
      assert a == key[..|a|] && b == key[..|b|];
      assert u == key[|a| + 1..] && v == key[|b| + 1..];
    }
  }

  /**
   Two endpoints share a table key exactly when they agree on URL and method up to case, or a method name with
   a blank in it takes in the beginning of the other's URL.
  */
  lemma KeyDeterminesEndpoint(upper: string -> string, m1: string, u1: string, m2: string, u2: string)
    ensures EndpointKey(upper, m1, u1) == EndpointKey(upper, m2, u2) <==>
            || (upper(m1) == upper(m2) && u1 == u2)
            || Overlaps(upper(m1), u1, upper(m2), u2)
            || Overlaps(upper(m2), u2, upper(m1), u1)
  {
    var a, b := upper(m1), upper(m2);
    if |a| < |b| {
      OverlapSharesKey(a, u1, b, u2);
    } else if |b| < |a| {
      OverlapSharesKey(b, u2, a, u1);
    } else {
      SameLengthSharesKey(a, u1, b, u2);
    }
  }

  /** Module after module into a cleared table. */
  method WriteModules(modules: seq<(string, string)>) returns (table: map<string, string>)
    ensures LastWriterWins(table, ModuleWrites(modules))
  {
    table := map[];
    for i := 0 to |modules|
      invariant LastWriterWins(table, ModuleWrites(modules)[..i])
    {
      var (name, text) := modules[i];
      WriteOne(table, ModuleWrites(modules)[..i], PathOf(name), text);
      assert ModuleWrites(modules)[..i + 1] == ModuleWrites(modules)[..i] + [(PathOf(name), text)];
      table := table[PathOf(name) := text];
    }
    assert ModuleWrites(modules)[..|modules|] == ModuleWrites(modules);
  }

  /** The methods of one URL, each with its module path completed. */
  method WriteMethods(upper: string -> string, url: string, methods: seq<Method>,
                      before: map<string, Info>, ghost written: seq<(string, Info)>)
    returns (table: map<string, Info>)
    requires LastWriterWins(before, written)
    ensures LastWriterWins(table, written + MethodWrites(upper, url, methods))
  {
    table := before;
    ghost var writes := MethodWrites(upper, url, methods);
    assert written + writes[..0] == written;
    for j := 0 to |methods|
      invariant LastWriterWins(table, written + writes[..j])
    {
      var info := methods[j].info;
      var key := EndpointKey(upper, methods[j].name, url);
      info := info.(jsModule := PathOf(info.jsModule));
      WriteOne(table, written + writes[..j], key, info);
      assert written + writes[..j + 1] == written + writes[..j] + [(key, info)];
      table := table[key := info];
    }
    assert writes[..|methods|] == writes;
  }

  method WriteEndpoints(upper: string -> string, endpoints: seq<(string, seq<Method>)>)
    returns (table: map<string, Info>)
    ensures LastWriterWins(table, EndpointWrites(upper, endpoints))
  {
    table := map[];
    for i := 0 to |endpoints|
      invariant LastWriterWins(table, EndpointWrites(upper, endpoints[..i]))
    {
      var (url, methods) := endpoints[i];
      table := WriteMethods(upper, url, methods, table, EndpointWrites(upper, endpoints[..i]));
      assert endpoints[..i + 1][..i] == endpoints[..i];
    }
    assert endpoints[..|endpoints|] == endpoints;
  }

  class Tables {
    var modulesMap: map<string, string>
    var endpointsMap: map<string, Info>

    constructor ()
      ensures View() == State(map[], map[])
    {
      modulesMap, endpointsMap := map[], map[];
    }

    function View(): State
      reads this
    {
      State(modulesMap, endpointsMap)
    }

    method SetJsAppAction(upper: string -> string, bundle: Bundle) returns (ok: bool)
      modifies this
      ensures ok == IsValid(bundle)
      ensures Stepped(old(View()), upper, SetJsApp(bundle), View())
    {
      if !IsValid(bundle) { return false; }
      modulesMap := WriteModules(bundle.modules);
      endpointsMap := WriteEndpoints(upper, bundle.endpoints);
      ok := true;
    }

    method RemoveJsAppAction()
      modifies this
      ensures View() == State(map[], map[])
    {
      modulesMap, endpointsMap := map[], map[];
    }
  }
}
