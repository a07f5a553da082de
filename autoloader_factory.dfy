/**
 * src/AutoloaderFactory.php: builds one autoloader per (namespace, path) pair
 * of a rule list, in the list's order, each of which registers itself on
 * construction; and the registration entry point, which calls a `register`
 * method the autoloader class does not define.
 *
 * The rules are the PHP array `namespace => paths`, kept as an ordered list of
 * rules. The value of an entry is either a list of folders or, as the plugin's
 * own configuration writes it, one folder string.
 */
module Factory {
  import opened Wrappers
  import opened Text
  import opened ClassAutoloader

  /** The value of one rules entry: a list of folders, or a single folder string. */
  datatype Folders = List(items: seq<string>) | Single(folder: string)

  /** One `namespace => paths` entry of the rules array. */
  datatype Rule = Rule(namespace: string, paths: Folders)

  /**
   * What `foreach ($paths as $path)` visits: the folders of a list, in order.
   * Over a string PHP only warns that `foreach` needs an array and runs the
   * body zero times.
   */
  function Visited(paths: Folders): seq<string>
  {
    match paths
    case List(items) => items
    case Single(_) => []
  }

  /** One autoloader to build: the namespace as given and one folder. */
  datatype Target = Target(namespace: string, folder: string)

  /** The PHP fatal error raised by calling a method the class does not have. */
  datatype FatalError = UndefinedMethod(name: string)

  /** The targets of one rule, in the order of its paths. */
  function RuleTargets(r: Rule): seq<Target>
  {
    var paths := Visited(r.paths);
    seq(|paths|, k requires 0 <= k < |paths| => Target(r.namespace, paths[k]))
  }

  /** The number of folders `foreach` visits over all rules. */
  function PathCount(rules: seq<Rule>): nat
  {
    if rules == [] then 0 else PathCount(rules[..|rules| - 1]) + |Visited(rules[|rules| - 1].paths)|
  }

  /**
   * The targets the nested loop visits: the rules in order, and each rule's
   * folders in order; one target per visited folder.
   */
  function Targets(rules: seq<Rule>): (r: seq<Target>)
    ensures |r| == PathCount(rules)
  {
    if rules == [] then [] else Targets(rules[..|rules| - 1]) + RuleTargets(rules[|rules| - 1])
  }

  /** The loader was built for the target: the namespace without its leading backslashes, and the folder. */
  predicate BuiltAs(loader: Autoloader, t: Target)
  {
    loader.namespace == StoredNamespace(t.namespace) && loader.folder == t.folder
  }

  /** The loaders were built from the targets, one for one and in order. */
  predicate BuiltFrom(loaders: seq<Autoloader>, targets: seq<Target>)
  {
    |loaders| == |targets| && forall k :: 0 <= k < |loaders| ==> BuiltAs(loaders[k], targets[k])
  }

  /**
   * `generateFromRules`: one new autoloader per namespace and path, each of
   * which has appended itself to the autoload callbacks. No loader is dropped
   * as a duplicate: the callbacks stay free of repeats.
   */
  method GenerateFromRules(rules: seq<Rule>, host: Host) returns (loaders: seq<Autoloader>)
    requires Distinct(host.callbacks)
    modifies host`callbacks
    ensures BuiltFrom(loaders, Targets(rules))
    ensures host.callbacks == old(host.callbacks) + loaders
    ensures Distinct(host.callbacks)
    ensures Distinct(loaders) && forall k :: 0 <= k < |loaders| ==> loaders[k] !in old(host.callbacks)
  {
    loaders := [];
    var i := 0;
    while i < |rules|
      invariant 0 <= i <= |rules|
      invariant BuiltFrom(loaders, Targets(rules[..i]))
      invariant host.callbacks == old(host.callbacks) + loaders
      invariant Distinct(host.callbacks)
    {
      var built := BuildRule(rules[i], host);
      TargetsStep(rules, i);
      BuiltFromAppend(loaders, Targets(rules[..i]), built, RuleTargets(rules[i]));
      assert host.callbacks == old(host.callbacks) + (loaders + built);
      loaders := loaders + built;
      i := i + 1;
    }
    assert rules[..i] == rules;
    DistinctSplit(old(host.callbacks), loaders);
  }

  /** The inner loop of `generateFromRules`: one new autoloader per path of one rule. */
  method BuildRule(rule: Rule, host: Host) returns (built: seq<Autoloader>)
    requires Distinct(host.callbacks)
    modifies host`callbacks
    ensures BuiltFrom(built, RuleTargets(rule))
    ensures host.callbacks == old(host.callbacks) + built
    ensures Distinct(host.callbacks)
  {
    built := [];
    var paths := Visited(rule.paths);
    var j := 0;
    while j < |paths|
      invariant 0 <= j <= |paths|
      invariant |built| == j
      invariant forall k :: 0 <= k < j ==> BuiltAs(built[k], Target(rule.namespace, paths[k]))
      invariant host.callbacks == old(host.callbacks) + built
      invariant Distinct(host.callbacks)
    {
      var loader := Build(Target(rule.namespace, paths[j]), host);
      built := built + [loader];
      j := j + 1;
    }
  }

  /** One `new Autoloader($namespace, $path)`: a new callback, so the callbacks stay free of repeats. */
  method Build(t: Target, host: Host) returns (loader: Autoloader)
    requires Distinct(host.callbacks)
    modifies host`callbacks
    ensures BuiltAs(loader, t)
    ensures host.callbacks == old(host.callbacks) + [loader]
    ensures Distinct(host.callbacks)
  {
    ghost var before := host.callbacks;
    loader := new Autoloader(t.namespace, t.folder, host);
    assert loader !in before;
    DistinctSnoc(before, loader);
  }

  lemma DistinctSnoc(s: seq<Autoloader>, x: Autoloader)
    requires Distinct(s) && x !in s
    ensures Distinct(s + [x])
  {
  }

  /** A repeat-free list of callbacks splits into repeat-free parts that share nothing. */
  lemma DistinctSplit(a: seq<Autoloader>, b: seq<Autoloader>)
    requires Distinct(a + b)
    ensures Distinct(a) && Distinct(b)
    ensures forall k :: 0 <= k < |b| ==> b[k] !in a
  {
    forall k | 0 <= k < |b|
      ensures b[k] !in a
    {
      forall i | 0 <= i < |a|
        ensures a[i] != b[k]
      {
        assert (a + b)[i] == a[i] && (a + b)[|a| + k] == b[k];
      }
    }
    forall i, j | 0 <= i < j < |a|
      ensures a[i] != a[j]
    {
      assert (a + b)[i] == a[i] && (a + b)[j] == a[j];
    }
    forall i, j | 0 <= i < j < |b|
      ensures b[i] != b[j]
    {
      assert (a + b)[|a| + i] == b[i] && (a + b)[|a| + j] == b[j];
    }
  }

  lemma TargetsStep(rules: seq<Rule>, i: nat)
    requires i < |rules|
    ensures Targets(rules[..i + 1]) == Targets(rules[..i]) + RuleTargets(rules[i])
  {
    assert rules[..i + 1][..i] == rules[..i];
  }

  lemma BuiltFromAppend(a: seq<Autoloader>, s: seq<Target>, b: seq<Autoloader>, t: seq<Target>)
    requires BuiltFrom(a, s) && BuiltFrom(b, t)
    ensures BuiltFrom(a + b, s + t)
  {
    forall k | 0 <= k < |a + b|
      ensures BuiltAs((a + b)[k], (s + t)[k])
    {
      if k >= |a| {
        assert (a + b)[k] == b[k - |a|] && (s + t)[k] == t[k - |a|];
      }
    }
  }

  /**
   * `registerFromRules` as written: the loaders are built (and so registered),
   * then the first call of the undefined `register` ends the request with a
   * fatal error; with no loaders the loop body never runs.
   */
  method RegisterFromRules(rules: seq<Rule>, host: Host) returns (failure: Option<FatalError>)
    requires Distinct(host.callbacks)
    modifies host`callbacks
    ensures failure == RegisterOutcome(rules)
    ensures |host.callbacks| == |old(host.callbacks)| + PathCount(rules)
    ensures host.callbacks[..|old(host.callbacks)|] == old(host.callbacks)
    ensures BuiltFrom(host.callbacks[|old(host.callbacks)|..], Targets(rules))
    ensures Distinct(host.callbacks)
  {
    var loaders := GenerateFromRules(rules, host);
    assert host.callbacks[..|old(host.callbacks)|] == old(host.callbacks);
    assert host.callbacks[|old(host.callbacks)|..] == loaders;
    failure := None;
    if |loaders| > 0 {
      failure := Some(UndefinedMethod("register"));
    }
  }

  /** The result of `registerFromRules` as written. */
  function RegisterOutcome(rules: seq<Rule>): Option<FatalError>
  {
    if PathCount(rules) == 0 then None else Some(UndefinedMethod("register"))
  }

  /**
   * `registerFromRules` as evidently intended: `register` adds each loader's
   * callback, which the constructor already did, so the callbacks are exactly
   * one per target and no error is raised.
   */
  method RegisterFromRulesIntended(rules: seq<Rule>, host: Host) returns (loaders: seq<Autoloader>)
    requires Distinct(host.callbacks)
    modifies host`callbacks
    ensures BuiltFrom(loaders, Targets(rules))
    ensures host.callbacks == old(host.callbacks) + loaders
    ensures Distinct(host.callbacks)
  {
    loaders := GenerateFromRules(rules, host);
    var k := 0;
    while k < |loaders|
      invariant 0 <= k <= |loaders|
      invariant host.callbacks == old(host.callbacks) + loaders
    {
      assert loaders[k] == (old(host.callbacks) + loaders)[|old(host.callbacks)| + k];
      host.Register(loaders[k]);
      k := k + 1;
    }
  }

  // ---- what the factory promises ----

  /** The targets of consecutive rule lists follow each other. */
  lemma {:induction false} TargetsAppend(a: seq<Rule>, b: seq<Rule>)
    ensures Targets(a + b) == Targets(a) + Targets(b)
  {
    if b != [] {
      assert (a + b)[..|a + b| - 1] == a + b[..|b| - 1];
      TargetsAppend(a, b[..|b| - 1]);
    } else {
      assert a + b == a;
    }
  }

  /** The rule with index `i` lists the folder under the target's namespace. */
  predicate Lists(rules: seq<Rule>, i: int, t: Target)
  {
    0 <= i < |rules| && rules[i].namespace == t.namespace && t.folder in Visited(rules[i].paths)
  }

  /** A loader is built for a namespace and folder exactly when some rule lists that folder under that namespace. */
  lemma TargetIffRule(rules: seq<Rule>, t: Target)
    ensures t in Targets(rules) <==> exists i :: Lists(rules, i, t)
  {
    if t in Targets(rules) {
      var i := TargetFromRule(rules, t);
    }
    if exists i :: Lists(rules, i, t) {
      var i :| Lists(rules, i, t);
      RuleGivesTarget(rules, i, t);
    }
  }

  /** Every target comes from a rule that lists it. */
  lemma {:induction false} TargetFromRule(rules: seq<Rule>, t: Target) returns (i: int)
    requires t in Targets(rules)
    ensures Lists(rules, i, t)
  {
    var init := rules[..|rules| - 1];
    var r := rules[|rules| - 1];
    if t in Targets(init) {
      i := TargetFromRule(init, t);
      assert rules[i] == init[i];
    } else {
      var k :| 0 <= k < |Visited(r.paths)| && RuleTargets(r)[k] == t;
      i := |rules| - 1;
    }
  }

  /** Every folder a rule lists gives a target. */
  lemma {:induction false} RuleGivesTarget(rules: seq<Rule>, i: int, t: Target)
    requires Lists(rules, i, t)
    ensures t in Targets(rules)
  {
    var init := rules[..|rules| - 1];
    var r := rules[|rules| - 1];
    if i < |init| {
      assert init[i] == rules[i];
      RuleGivesTarget(init, i, t);
    } else {
      var k :| 0 <= k < |Visited(r.paths)| && Visited(r.paths)[k] == t.folder;
      assert RuleTargets(r)[k] == t;
    }
  }

  /** As written, registration fails exactly when some rule visits a folder. */
  lemma RegisterFailsIffAnyPath(rules: seq<Rule>)
    ensures RegisterOutcome(rules).Some? <==> exists i :: 0 <= i < |rules| && Visited(rules[i].paths) != []
  {
    if exists i :: 0 <= i < |rules| && Visited(rules[i].paths) != [] {
      var i :| 0 <= i < |rules| && Visited(rules[i].paths) != [];
      var t := Target(rules[i].namespace, Visited(rules[i].paths)[0]);
      assert Lists(rules, i, t);
      TargetIffRule(rules, t);
    }
    if Targets(rules) != [] {
      var t := Targets(rules)[0];
      TargetIffRule(rules, t);
      var i :| Lists(rules, i, t);
      assert Visited(rules[i].paths) != [];
    }
  }

  /** A single rule with one folder in a list already makes registration fail. */
  lemma OneRuleFails(ns: string, path: string)
    ensures RegisterOutcome([Rule(ns, List([path]))]) == Some(UndefinedMethod("register"))
  {
    assert [Rule(ns, List([path]))][..0] == [];
  }

  /**
   * Rules whose values are all folder strings, the plugin's own configuration
   * shape, build no loader, so registration registers nothing and raises no error.
   */
  lemma {:induction false} StringRulesBuildNothing(rules: seq<Rule>)
    requires forall i :: 0 <= i < |rules| ==> rules[i].paths.Single?
    ensures Targets(rules) == [] && RegisterOutcome(rules) == None
  {
    if rules != [] {
      StringRulesBuildNothing(rules[..|rules| - 1]);
    }
  }
}
