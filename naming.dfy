/**
 * Names derived from an item's node id (`path/to/file.py::Class::test[params]`)
 * in allure-pytest/src/utils.py: `allure_package`, `allure_full_name`,
 * `allure_name` and the default suite labels of `allure_suite_labels`.
 *
 * `escape_name` and `str.format` are foreign to this model: they are passed
 * in as functions and never interpreted.
 */
module Naming {
  import opened Wrappers
  import opened PyStr
  import opened Items
  import opened Labels

  const NODE_SEP := "::"

  /** `nodeid.split('::')`. */
  function NodeParts(nodeid: string): (parts: seq<string>)
    ensures |parts| >= 1
  {
    Split(nodeid, NODE_SEP)
  }

  /** The split pieces rebuild the node id and none of them contains `::`. */
  lemma NodePartsSpec(nodeid: string)
    ensures Join(NODE_SEP, NodeParts(nodeid)) == nodeid
    ensures forall p :: p in NodeParts(nodeid) ==> !Contains(p, NODE_SEP)
  {
    JoinSplit(nodeid, NODE_SEP);
    SplitPartsFree(nodeid, NODE_SEP);
  }

  /** The head of the node id: the file path before the first `::`. */
  function Head(nodeid: string): (h: string)
    ensures StartsWith(nodeid, h) && !Contains(h, NODE_SEP)
    ensures h == nodeid || OccursAt(nodeid, NODE_SEP, |h|)
    ensures forall i :: 0 <= i < |h| ==> !OccursAt(nodeid, NODE_SEP, i)
  {
    SplitFirstPart(nodeid, NODE_SEP);
    SplitFirstEarliest(nodeid, NODE_SEP);
    NodeParts(nodeid)[0]
  }

  /**
   * `allure_package`: the head without its last `.`-extension, with every
   * `/` turned into `.`.
   */
  function AllurePackage(nodeid: string): (r: string)
    ensures '/' !in r
    ensures |r| <= |Head(nodeid)|
    ensures forall i :: 0 <= i < |r| ==> r[i] == (if Head(nodeid)[i] == '/' then '.' else Head(nodeid)[i])
    ensures '.' !in Head(nodeid) ==> |r| == |Head(nodeid)|
    ensures '.' in Head(nodeid) ==> |r| < |Head(nodeid)| && Head(nodeid)[|r|] == '.' && '.' !in Head(nodeid)[|r| + 1..]
  {
    Replace(BeforeLast(Head(nodeid), '.'), '/', '.')
  }

  /** The last `::` piece of the node id: the test name with its parameters. */
  function LastPart(nodeid: string): (t: string)
    ensures !Contains(t, NODE_SEP)
    ensures |t| <= |nodeid| && nodeid[|nodeid| - |t|..] == t
    ensures |NodeParts(nodeid)| == 1 ==> t == nodeid
    ensures |NodeParts(nodeid)| > 1 ==>
              nodeid == Join(NODE_SEP, NodeParts(nodeid)[..|NodeParts(nodeid)| - 1]) + NODE_SEP + t
  {
    var parts := NodeParts(nodeid);
    NodePartsSpec(nodeid);
    assert parts[|parts| - 1] in parts;
    JoinEndsWithLast(NODE_SEP, parts);
    if |parts| > 1 then
      JoinSnoc(NODE_SEP, parts);
      parts[|parts| - 1]
    else parts[|parts| - 1]
  }

  /** A join of two or more pieces is the join of all but the last, the separator and the last. */
  lemma {:induction false} JoinSnoc(sep: string, parts: seq<string>)
    requires |parts| > 1
    ensures Join(sep, parts) == Join(sep, parts[..|parts| - 1]) + sep + parts[|parts| - 1]
    decreases |parts|
  {
    if |parts| > 2 {
      JoinSnoc(sep, parts[1..]);
      assert parts[1..][..|parts| - 2] == parts[..|parts| - 1][1..];
      assert parts[..|parts| - 1][0] == parts[0];
    } else {
      assert parts[..1] == [parts[0]];
    }
  }

  /** A join ends with its last piece. */
  lemma {:induction false} JoinEndsWithLast(sep: string, parts: seq<string>)
    requires |parts| >= 1
    ensures |parts[|parts| - 1]| <= |Join(sep, parts)|
    ensures Join(sep, parts)[|Join(sep, parts)| - |parts[|parts| - 1]|..] == parts[|parts| - 1]
  {
    if |parts| > 1 {
      JoinEndsWithLast(sep, parts[1..]);
    }
  }

  /**
   * `test_with_params.rsplit("[", 1)[0]`: the test name with everything from
   * its last `[` removed.
   */
  function TestName(nodeid: string): (test: string)
    ensures StartsWith(LastPart(nodeid), test)
    ensures '[' !in LastPart(nodeid) ==> test == LastPart(nodeid)
    ensures '[' in LastPart(nodeid) ==> |test| < |LastPart(nodeid)| && LastPart(nodeid)[|test|] == '[' && '[' !in LastPart(nodeid)[|test| + 1..]
  {
    BeforeLast(LastPart(nodeid), '[')
  }

  /** `'.' + parts[1]` when the node id has more than two pieces (a test in a class), else empty. */
  function ClassSuffix(nodeid: string): (c: string)
    ensures |NodeParts(nodeid)| <= 2 <==> c == ""
    ensures |NodeParts(nodeid)| > 2 ==> c == "." + NodeParts(nodeid)[1] && !Contains(NodeParts(nodeid)[1], NODE_SEP)
  {
    var parts := NodeParts(nodeid);
    if |parts| > 2 then
      NodePartsSpec(nodeid);
      assert parts[1] in parts;
      "." + parts[1]
    else ""
  }

  /** The full name before escaping: `package[.Class]#test`. */
  function FullNameRaw(nodeid: string): string {
    AllurePackage(nodeid) + ClassSuffix(nodeid) + "#" + TestName(nodeid)
  }

  /**
   * `allure_full_name`: the escaped `package[.Class]#test`; `escape` stands
   * for `escape_name`.  The pieces are pinned by `AllurePackage`,
   * `ClassSuffix` and `TestName`; `FullNameOfMethod` and `FullNameOfFunction`
   * give the name for the usual node-id shapes.
   */
  function AllureFullName(item: Item, escape: string -> string): (r: string)
    ensures r == escape(AllurePackage(item.nodeid) + ClassSuffix(item.nodeid) + "#" + TestName(item.nodeid))
  {
    escape(FullNameRaw(item.nodeid))
  }

  /** `{**parameters, **item.funcargs}`: the test's own arguments win over the parameters. */
  function FormatArguments(parameters: map<string, Value>, funcargs: map<string, Value>): (r: map<string, Value>)
    ensures r.Keys == parameters.Keys + funcargs.Keys
    ensures forall k :: k in funcargs ==> r[k] == funcargs[k]
    ensures forall k :: k in parameters && k !in funcargs ==> r[k] == parameters[k]
  {
    parameters + funcargs
  }

  /**
   * `allure_name`: the title template formatted with the arguments when a
   * truthy title is present, else the escaped item name; `format` stands for
   * `str.format` and `escape` for `escape_name`.
   */
  function AllureName(item: Item, parameters: map<string, Value>,
                      escape: string -> string, format: (Value, map<string, Value>) -> string): (r: string)
    ensures forall t :: ClosestValue(item, ALLURE_DISPLAY_NAME_MARK, t) && Truthy(t) ==>
              r == format(t, FormatArguments(parameters, item.funcargs))
    ensures (forall t :: ClosestValue(item, ALLURE_DISPLAY_NAME_MARK, t) ==> !Truthy(t)) ==> r == escape(item.name)
  {
    var name := escape(item.name);
    var title := AllureTitle(item);
    if title.Some? && Truthy(title.value) then
      ClosestValueUnique(item, ALLURE_DISPLAY_NAME_MARK, title.value);
      format(title.value, FormatArguments(parameters, item.funcargs))
    else name
  }

  // ---------------------------------------------------------------------------
  // allure_suite_labels(item)
  // ---------------------------------------------------------------------------

  /** The file name: the head after its last `/`. */
  function FileName(nodeid: string): (f: string)
    ensures '/' !in f
    ensures '/' !in Head(nodeid) ==> f == Head(nodeid)
    ensures '/' in Head(nodeid) ==> Head(nodeid) == BeforeLast(Head(nodeid), '/') + "/" + f
  {
    AfterLast(Head(nodeid), '/')
  }

  /** `file_name.split('.')[0]`: the module, the file name cut at its first `.`. */
  function SuiteModule(nodeid: string): (m: string)
    ensures StartsWith(FileName(nodeid), m) && '.' !in m
    ensures m == FileName(nodeid) || FileName(nodeid)[|m|] == '.'
  {
    var f := FileName(nodeid);
    SplitFirstPart(f, ".");
    ContainsChar(Split(f, ".")[0], '.');
    assert OccursAt(f, ".", |Split(f, ".")[0]|) ==> f[|Split(f, ".")[0]|] == '.';
    Split(f, ".")[0]
  }

  /**
   * The package: the directory part of the head with `/` turned into `.`,
   * present only when the head has a `/` with something before it.
   */
  function SuitePackage(nodeid: string): (p: Option<string>)
    ensures p.Some? <==> '/' in Head(nodeid) && BeforeLast(Head(nodeid), '/') != ""
    ensures p.Some? ==> p.value == Replace(BeforeLast(Head(nodeid), '/'), '/', '.') && '/' !in p.value && p.value != ""
  {
    var head := Head(nodeid);
    if '/' in head && BeforeLast(head, '/') != "" then Some(Replace(BeforeLast(head, '/'), '/', '.'))
    else None
  }

  /** The class: the second piece, kept only when a non-empty third piece follows it. */
  function SuiteClass(nodeid: string): (c: Option<string>)
    ensures c.Some? <==> |NodeParts(nodeid)| >= 3 && NodeParts(nodeid)[2] != ""
    ensures c.Some? ==> c.value == NodeParts(nodeid)[1] && !Contains(c.value, NODE_SEP)
  {
    var parts := NodeParts(nodeid);
    if |parts| >= 3 && parts[2] != "" then
      NodePartsSpec(nodeid);
      assert parts[1] in parts;
      Some(parts[1])
    else None
  }

  /** The `(kind, value)` pairs in the order `parent-suite`, `suite`, `sub-suite`. */
  function SuiteCandidates(nodeid: string): seq<(Value, Option<string>)> {
    [(PARENT_SUITE, SuitePackage(nodeid)), (SUITE, Some(SuiteModule(nodeid))), (SUB_SUITE, SuiteClass(nodeid))]
  }

  /** A candidate is kept when its kind has no explicit label and its value is truthy. */
  predicate Keep(c: (Value, Option<string>), explicit: set<Value>) {
    c.0 !in explicit && c.1.Some? && c.1.value != ""
  }

  /** The kept candidates as labels, in order, as the loop appends them. */
  function KeptLabels(cands: seq<(Value, Option<string>)>, explicit: set<Value>): seq<Label> {
    if |cands| == 0 then []
    else
      var c := cands[|cands| - 1];
      KeptLabels(cands[..|cands| - 1], explicit) + (if Keep(c, explicit) then [Label(c.0, Str(c.1.value))] else [])
  }

  /** The kinds of an item's explicit labels: the keys of `dict(allure_labels(item))`. */
  function KindsOf(labels: set<Label>): set<Value> {
    set l | l in labels :: l.kind
  }

  /** The default suite labels of a node id given the kinds already labelled explicitly. */
  function DefaultSuiteLabels(nodeid: string, explicit: set<Value>): seq<Label> {
    KeptLabels(SuiteCandidates(nodeid), explicit)
  }

  /**
   * `allure_suite_labels(item)`: the parent-suite, suite and sub-suite labels
   * derived from the node id, each only when not labelled explicitly and
   * non-empty.  Raises what `allure_labels` raises.
   */
  method AllureSuiteLabels(item: Item) returns (r: Result<seq<Label>, PyError>)
    ensures r == match LabelsOf(IterMarkers(item, ALLURE_LABEL_MARK))
                 case Failure(e) => Failure(e)
                 case Success(ls) => Success(DefaultSuiteLabels(item.nodeid, KindsOf(ls)))
  {
    var pairs := SuiteCandidates(item.nodeid);
    var allLabels := AllureLabels(item);
    if allLabels.Failure? {
      return Failure(allLabels.error);
    }
    var labels := KindsOf(allLabels.value);
    var defaultSuiteLabels := KeepDefaults(pairs, labels);
    return Success(defaultSuiteLabels);
  }

  /** The loop of `allure_suite_labels`: appends each candidate kept under the explicit kinds `labels`. */
  method KeepDefaults(pairs: seq<(Value, Option<string>)>, labels: set<Value>) returns (defaultSuiteLabels: seq<Label>)
    ensures defaultSuiteLabels == KeptLabels(pairs, labels)
  {
    defaultSuiteLabels := [];
    var i := 0;
    while i < |pairs|
      invariant 0 <= i <= |pairs|
      invariant defaultSuiteLabels == KeptLabels(pairs[..i], labels)
    {
      var (kind, value) := pairs[i];
      assert pairs[..i + 1][..i] == pairs[..i];
      if kind !in labels && value.Some? && value.value != "" {
        defaultSuiteLabels := defaultSuiteLabels + [Label(kind, Str(value.value))];
      }
      i := i + 1;
    }
    assert pairs[..i] == pairs;
  }

  /** Kept labels of three candidates, written out. */
  lemma KeptLabelsOfThree(a: (Value, Option<string>), b: (Value, Option<string>), c: (Value, Option<string>), explicit: set<Value>)
    ensures KeptLabels([a, b, c], explicit) ==
      (if Keep(a, explicit) then [Label(a.0, Str(a.1.value))] else []) +
      (if Keep(b, explicit) then [Label(b.0, Str(b.1.value))] else []) +
      (if Keep(c, explicit) then [Label(c.0, Str(c.1.value))] else [])
  {
    assert [a, b, c][..2] == [a, b];
    assert [a, b][..1] == [a];
    assert [a][..0] == [];
    assert KeptLabels([a], explicit) == (if Keep(a, explicit) then [Label(a.0, Str(a.1.value))] else []);
    assert KeptLabels([a, b], explicit) == KeptLabels([a], explicit) + (if Keep(b, explicit) then [Label(b.0, Str(b.1.value))] else []);
  }

  lemma SuiteKindsDistinct()
    ensures PARENT_SUITE != SUITE && SUITE != SUB_SUITE && PARENT_SUITE != SUB_SUITE
  {
    assert PARENT_SUITE.s[0] != SUITE.s[0];
    assert SUITE.s[2] != SUB_SUITE.s[2];
    assert PARENT_SUITE.s[0] != SUB_SUITE.s[0];
  }

  /** The kept labels of a parent-suite, a suite and a sub-suite candidate. */
  lemma KeptSuiteLabels(a: (Value, Option<string>), b: (Value, Option<string>), c: (Value, Option<string>), explicit: set<Value>)
    requires a.0 == PARENT_SUITE && b.0 == SUITE && c.0 == SUB_SUITE
    ensures forall l :: l in KeptLabels([a, b, c], explicit) ==> l.kind !in explicit && l.kind in {PARENT_SUITE, SUITE, SUB_SUITE}
    ensures forall v :: Label(PARENT_SUITE, v) in KeptLabels([a, b, c], explicit) <==> Keep(a, explicit) && v == Str(a.1.value)
    ensures forall v :: Label(SUITE, v) in KeptLabels([a, b, c], explicit) <==> Keep(b, explicit) && v == Str(b.1.value)
    ensures forall v :: Label(SUB_SUITE, v) in KeptLabels([a, b, c], explicit) <==> Keep(c, explicit) && v == Str(c.1.value)
    ensures forall i, j :: 0 <= i < j < |KeptLabels([a, b, c], explicit)| ==>
      SuiteRank(KeptLabels([a, b, c], explicit)[i].kind) < SuiteRank(KeptLabels([a, b, c], explicit)[j].kind)
  {
    KeptLabelsOfThree(a, b, c, explicit);
    SuiteKindsDistinct();
  }

  /** Position of a suite kind in the `parent-suite`, `suite`, `sub-suite` order. */
  function SuiteRank(kind: Value): int {
    if kind == PARENT_SUITE then 0 else if kind == SUITE then 1 else 2
  }

  /**
   * The default suite labels: a label for each of parent-suite (the package),
   * suite (the module) and sub-suite (the class) exactly when that kind has no
   * explicit label and the value is non-empty, in that order, never a kind
   * already labelled.
   */
  lemma DefaultSuiteLabelsSpec(nodeid: string, explicit: set<Value>)
    ensures forall l :: l in DefaultSuiteLabels(nodeid, explicit) ==> l.kind !in explicit && l.kind in {PARENT_SUITE, SUITE, SUB_SUITE}
    ensures forall v :: Label(PARENT_SUITE, v) in DefaultSuiteLabels(nodeid, explicit) <==>
      PARENT_SUITE !in explicit && SuitePackage(nodeid).Some? && v == Str(SuitePackage(nodeid).value)
    ensures forall v :: Label(SUITE, v) in DefaultSuiteLabels(nodeid, explicit) <==>
      SUITE !in explicit && SuiteModule(nodeid) != "" && v == Str(SuiteModule(nodeid))
    ensures forall v :: Label(SUB_SUITE, v) in DefaultSuiteLabels(nodeid, explicit) <==>
      SUB_SUITE !in explicit && SuiteClass(nodeid).Some? && SuiteClass(nodeid).value != "" && v == Str(SuiteClass(nodeid).value)
    ensures forall i, j :: 0 <= i < j < |DefaultSuiteLabels(nodeid, explicit)| ==>
      SuiteRank(DefaultSuiteLabels(nodeid, explicit)[i].kind) < SuiteRank(DefaultSuiteLabels(nodeid, explicit)[j].kind)
  {
    var cands := SuiteCandidates(nodeid);
    KeptSuiteLabels(cands[0], cands[1], cands[2], explicit);
  }

  /** A node id `head::cls::test` whose pieces have no `:` splits into exactly those pieces. */
  lemma NodePartsOfThree(head: string, cls: string, test: string)
    requires ':' !in head && ':' !in cls && ':' !in test
    ensures NodeParts(head + NODE_SEP + cls + NODE_SEP + test) == [head, cls, test]
  {
    assert head + NODE_SEP + cls + NODE_SEP + test == head + NODE_SEP + (cls + NODE_SEP + test);
    SplitLeadingFree(head, NODE_SEP, cls + NODE_SEP + test);
    SplitLeadingFree(cls, NODE_SEP, test);
    FreeOfFirstChar(test, NODE_SEP);
    SplitFree(test, NODE_SEP);
  }

  /** A node id `head::test` whose pieces have no `:` splits into exactly those pieces. */
  lemma NodePartsOfTwo(head: string, test: string)
    requires ':' !in head && ':' !in test
    ensures NodeParts(head + NODE_SEP + test) == [head, test]
  {
    SplitLeadingFree(head, NODE_SEP, test);
    FreeOfFirstChar(test, NODE_SEP);
    SplitFree(test, NODE_SEP);
  }

  /** The full name of a node id of two pieces. */
  lemma FullNameOfTwo(nodeid: string, head: string, last: string, path: string, test: string)
    requires NodeParts(nodeid) == [head, last]
    requires BeforeLast(head, '.') == path && BeforeLast(last, '[') == test
    ensures FullNameRaw(nodeid) == Replace(path, '/', '.') + "#" + test
  {
    assert Head(nodeid) == head;
    assert ClassSuffix(nodeid) == "";
    assert LastPart(nodeid) == last;
  }

  /**
   * A module-level test, `dir.ext::test[params]`, has the full name
   * `dir#test` with the `/` of `dir` turned into `.`.
   */
  lemma FullNameOfFunction(dir: string, ext: string, test: string, params: string)
    requires ':' !in dir && ':' !in ext && ':' !in test && ':' !in params
    requires '.' !in ext && '[' !in params
    ensures FullNameRaw(dir + "." + ext + NODE_SEP + test + "[" + params + "]") == Replace(dir, '/', '.') + "#" + test
  {
    var head := dir + "." + ext;
    var last := test + "[" + params + "]";
    var joined := head + NODE_SEP + last;
    assert dir + "." + ext + NODE_SEP + test + "[" + params + "]" == joined;
    NodePartsOfTwo(head, last);
    assert head == dir + ['.'] + ext;
    SplitAtLast(dir, '.', ext);
    assert last == test + ['['] + (params + "]");
    SplitAtLast(test, '[', params + "]");
    FullNameOfTwo(joined, head, last, dir, test);
  }

  /** The full name of a node id of three pieces. */
  lemma FullNameOfThree(nodeid: string, head: string, cls: string, last: string, path: string, test: string)
    requires NodeParts(nodeid) == [head, cls, last]
    requires BeforeLast(head, '.') == path && BeforeLast(last, '[') == test
    ensures FullNameRaw(nodeid) == Replace(path, '/', '.') + "." + cls + "#" + test
  {
    assert Head(nodeid) == head;
    assert ClassSuffix(nodeid) == "." + cls;
    assert LastPart(nodeid) == last;
  }

  /**
   * A test method in a class, `dir.ext::Class::test[params]`, has the full
   * name `dir.Class#test` with the `/` of `dir` turned into `.`: the
   * extension and the parameters are dropped.
   */
  lemma FullNameOfMethod(dir: string, ext: string, cls: string, test: string, params: string)
    requires ':' !in dir && ':' !in ext && ':' !in cls && ':' !in test && ':' !in params
    requires '.' !in ext && '[' !in params
    ensures FullNameRaw(dir + "." + ext + NODE_SEP + cls + NODE_SEP + test + "[" + params + "]") ==
            Replace(dir, '/', '.') + "." + cls + "#" + test
  {
    var head := dir + "." + ext;
    var last := test + "[" + params + "]";
    var nodeid := dir + "." + ext + NODE_SEP + cls + NODE_SEP + test + "[" + params + "]";
    var joined := head + NODE_SEP + cls + NODE_SEP + last;
    assert nodeid == joined;
    NodePartsOfThree(head, cls, last);
    assert head == dir + ['.'] + ext;
    SplitAtLast(dir, '.', ext);
    assert last == test + ['['] + (params + "]");
    SplitAtLast(test, '[', params + "]");
    FullNameOfThree(joined, head, cls, last, dir, test);
  }

  /**
   * A test method in a class, `pkg/mod.ext::Class::test`, gets the parent
   * suite `pkg` (with `/` turned into `.`), the suite `mod` and the sub-suite
   * `Class`, each unless that kind is labelled explicitly.
   */
  lemma SuiteLabelsOfMethod(pkg: string, mod: string, ext: string, cls: string, test: string, explicit: set<Value>)
    requires ':' !in pkg && ':' !in mod && ':' !in ext && ':' !in cls && ':' !in test
    requires '/' !in mod && '/' !in ext && '.' !in mod
    requires pkg != "" && mod != "" && cls != "" && test != ""
    ensures DefaultSuiteLabels(pkg + "/" + mod + "." + ext + NODE_SEP + cls + NODE_SEP + test, explicit) ==
            (if PARENT_SUITE in explicit then [] else [Label(PARENT_SUITE, Str(Replace(pkg, '/', '.')))]) +
            (if SUITE in explicit then [] else [Label(SUITE, Str(mod))]) +
            (if SUB_SUITE in explicit then [] else [Label(SUB_SUITE, Str(cls))])
  {
    var file := mod + "." + ext;
    var head := pkg + "/" + file;
    var nodeid := pkg + "/" + mod + "." + ext + NODE_SEP + cls + NODE_SEP + test;
    assert nodeid == head + NODE_SEP + cls + NODE_SEP + test;
    NodePartsOfThree(head, cls, test);
    assert head == pkg + ['/'] + file;
    SplitAtLast(pkg, '/', file);
    assert FileName(nodeid) == file;
    SplitLeadingFree(mod, ".", ext);
    assert SuiteModule(nodeid) == mod;
    assert SuitePackage(nodeid) == Some(Replace(pkg, '/', '.'));
    assert SuiteClass(nodeid) == Some(cls);
    var cands := SuiteCandidates(nodeid);
    KeptLabelsOfThree(cands[0], cands[1], cands[2], explicit);
  }

  /**
   * A module-level test, `pkg/mod.ext::test`, gets the parent suite `pkg`
   * (with `/` turned into `.`) and the suite `mod`, each unless that kind is
   * labelled explicitly, and no sub-suite.
   */
  lemma SuiteLabelsOfFunction(pkg: string, mod: string, ext: string, test: string, explicit: set<Value>)
    requires ':' !in pkg && ':' !in mod && ':' !in ext && ':' !in test
    requires '/' !in mod && '/' !in ext && '.' !in mod
    requires pkg != "" && mod != ""
    ensures DefaultSuiteLabels(pkg + "/" + mod + "." + ext + NODE_SEP + test, explicit) ==
            (if PARENT_SUITE in explicit then [] else [Label(PARENT_SUITE, Str(Replace(pkg, '/', '.')))]) +
            (if SUITE in explicit then [] else [Label(SUITE, Str(mod))])
  {
    var file := mod + "." + ext;
    var head := pkg + "/" + file;
    var nodeid := pkg + "/" + mod + "." + ext + NODE_SEP + test;
    assert nodeid == head + NODE_SEP + test;
    NodePartsOfTwo(head, test);
    assert head == pkg + ['/'] + file;
    SplitAtLast(pkg, '/', file);
    assert FileName(nodeid) == file;
    SplitLeadingFree(mod, ".", ext);
    assert SuiteModule(nodeid) == mod;
    assert SuitePackage(nodeid) == Some(Replace(pkg, '/', '.'));
    assert SuiteClass(nodeid) == None;
    var cands := SuiteCandidates(nodeid);
    KeptLabelsOfThree(cands[0], cands[1], cands[2], explicit);
  }
}
