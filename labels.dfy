/**
 * Label collection of allure-pytest/src/utils.py: `allure_label`, which
 * gathers the values of one label kind in marker order, and `allure_labels`,
 * which keeps the first value of each unique kind and every value of every
 * other kind as a set.
 */
module Labels {
  import opened Wrappers
  import opened Items

  /** A label: a `(kind, value)` pair. */
  datatype Label = Label(kind: Value, value: Value)

  // The label kinds of `allure_commons.types.LabelType` that the extractor names.
  const SEVERITY := Str("severity")
  const FRAMEWORK := Str("framework")
  const HOST := Str("host")
  const SUITE := Str("suite")
  const PARENT_SUITE := Str("parentSuite")
  const SUB_SUITE := Str("subSuite")

  /** `ALLURE_UNIQUE_LABELS`: the kinds of which an item keeps one value only. */
  const UNIQUE_KINDS: set<Value> := {SEVERITY, FRAMEWORK, HOST, SUITE, PARENT_SUITE, SUB_SUITE}

  // ---------------------------------------------------------------------------
  // allure_label(item, label)
  // ---------------------------------------------------------------------------

  /** The marker is an `allure_label` marker of kind `kind`, compared as `kwargs.get("label_type") == kind`. */
  predicate OfKind(m: Marker, kind: Value) {
    KwargGet(m.kwargs, "label_type") == kind
  }

  /** The arguments of every marker of kind `kind`, in marker order, as the loop extends its list. */
  function ValuesOfKind(ms: seq<Marker>, kind: Value): seq<Value> {
    if |ms| == 0 then []
    else
      var last := ms[|ms| - 1];
      ValuesOfKind(ms[..|ms| - 1], kind) + (if OfKind(last, kind) then last.args else [])
  }

  /**
   * `allure_label(item, label)`: extends a list with the arguments of every
   * `allure_label` marker whose `label_type` equals the requested `kind`.
   */
  method AllureLabel(item: Item, kind: Value) returns (labels: seq<Value>)
    ensures labels == ValuesOfKind(IterMarkers(item, ALLURE_LABEL_MARK), kind)
  {
    var marks := IterMarkers(item, ALLURE_LABEL_MARK);
    labels := [];
    var i := 0;
    while i < |marks|
      invariant 0 <= i <= |marks|
      invariant labels == ValuesOfKind(marks[..i], kind)
    {
      var mark := marks[i];
      assert marks[..i + 1][..i] == marks[..i];
      if KwargGet(mark.kwargs, "label_type") == kind {
        labels := labels + mark.args;
      }
      i := i + 1;
    }
    assert marks[..i] == marks;
  }

  /** The values of a concatenation of markers are the concatenation of their values: order is kept. */
  lemma {:induction false} ValuesOfKindAppend(a: seq<Marker>, b: seq<Marker>, kind: Value)
    ensures ValuesOfKind(a + b, kind) == ValuesOfKind(a, kind) + ValuesOfKind(b, kind)
    decreases |b|
  {
    if |b| > 0 {
      var b' := b[..|b| - 1];
      assert (a + b)[..|a + b| - 1] == a + b';
      assert (a + b)[|a + b| - 1] == b[|b| - 1];
      ValuesOfKindAppend(a, b', kind);
    } else {
      assert a + b == a;
    }
  }

  /** A single marker contributes its arguments when of the kind, and nothing otherwise. */
  lemma ValuesOfKindSingle(m: Marker, kind: Value)
    ensures ValuesOfKind([m], kind) == if OfKind(m, kind) then m.args else []
  {
    assert [m][..0] == [];
  }

  /** A value is collected exactly when some marker of the kind carries it. */
  lemma {:induction false} ValuesOfKindMembers(ms: seq<Marker>, kind: Value, v: Value)
    ensures v in ValuesOfKind(ms, kind) <==> exists i :: 0 <= i < |ms| && OfKind(ms[i], kind) && v in ms[i].args
    decreases |ms|
  {
    if |ms| > 0 {
      var p := ms[..|ms| - 1];
      ValuesOfKindMembers(p, kind, v);
      assert forall i :: 0 <= i < |p| ==> p[i] == ms[i];
      if v in ValuesOfKind(ms, kind) && v !in ValuesOfKind(p, kind) {
        assert OfKind(ms[|ms| - 1], kind) && v in ms[|ms| - 1].args;
      }
    }
  }

  // ---------------------------------------------------------------------------
  // allure_labels(item)
  // ---------------------------------------------------------------------------

  /** The loop's state: the dict of unique kinds and the set of the other labels. */
  datatype Collected = Collected(unique: map<Value, Value>, others: set<Label>)

  /** `mark.kwargs["label_type"]`: the marker's kind, nothing when it has none (a `KeyError`). */
  function KindOf(m: Marker): Option<Value> {
    KwargLookup(m.kwargs, "label_type")
  }

  /** The labels `(kind, a)` for every argument `a`. */
  function LabelsFor(kind: Value, args: seq<Value>): set<Label> {
    set a | a in args :: Label(kind, a)
  }

  /** The labels `(k, unique[k])` for the keys `keys` of the unique dict. */
  function UniqueLabelsFor(unique: map<Value, Value>, keys: set<Value>): set<Label>
    requires keys <= unique.Keys
  {
    set k | k in keys :: Label(k, unique[k])
  }

  /** One iteration of the loop over `allure_label` markers. */
  function CollectStep(acc: Collected, m: Marker): Result<Collected, PyError> {
    match KindOf(m)
    case None => Failure(KeyError("label_type"))
    case Some(kind) =>
      if kind in UNIQUE_KINDS then
        if kind in acc.unique then Success(acc)
        else if |m.args| == 0 then Failure(IndexError)
        else Success(acc.(unique := acc.unique[kind := m.args[0]]))
      else Success(acc.(others := acc.others + LabelsFor(kind, m.args)))
  }

  /** The loop run over `ms`; the first error raised ends it. */
  function CollectAll(ms: seq<Marker>): Result<Collected, PyError> {
    if |ms| == 0 then Success(Collected(map[], {}))
    else
      match CollectAll(ms[..|ms| - 1])
      case Failure(e) => Failure(e)
      case Success(acc) => CollectStep(acc, ms[|ms| - 1])
  }

  /** The final `labels.add((k, v))` for every entry of the unique dict. */
  function Finish(acc: Collected): set<Label> {
    acc.others + UniqueLabelsFor(acc.unique, acc.unique.Keys)
  }

  /** `allure_labels` over the given `allure_label` markers. */
  function LabelsOf(ms: seq<Marker>): Result<set<Label>, PyError> {
    match CollectAll(ms)
    case Failure(e) => Failure(e)
    case Success(acc) => Success(Finish(acc))
  }

  /**
   * `allure_labels(item)`: one loop over the `allure_label` markers filling
   * the dict of unique kinds and the set of other labels, then a loop adding
   * the dict's entries to the set.  Raises `KeyError` for a marker without
   * `label_type` and `IndexError` for the first marker of a unique kind
   * without arguments.
   */
  method AllureLabels(item: Item) returns (r: Result<set<Label>, PyError>)
    ensures r == LabelsOf(IterMarkers(item, ALLURE_LABEL_MARK))
  {
    var marks := IterMarkers(item, ALLURE_LABEL_MARK);
    var uniqueLabels: map<Value, Value> := map[];
    var labels: set<Label> := {};
    var i := 0;
    while i < |marks|
      invariant 0 <= i <= |marks|
      invariant CollectAll(marks[..i]) == Success(Collected(uniqueLabels, labels))
    {
      var mark := marks[i];
      assert marks[..i + 1][..i] == marks[..i];
      ghost var acc := Collected(uniqueLabels, labels);
      assert CollectAll(marks[..i + 1]) == CollectStep(acc, mark);
      var labelType := KindOf(mark);
      if labelType.None? {
        FailureSticks(marks, i + 1);
        return Failure(KeyError("label_type"));
      }
      var kind := labelType.value;
      if kind in UNIQUE_KINDS {
        if kind !in uniqueLabels {
          if |mark.args| == 0 {
            FailureSticks(marks, i + 1);
            return Failure(IndexError);
          }
          uniqueLabels := uniqueLabels[kind := mark.args[0]];
        }
      } else {
        var j := 0;
        while j < |mark.args|
          invariant 0 <= j <= |mark.args|
          invariant labels == acc.others + LabelsFor(kind, mark.args[..j])
        {
          assert mark.args[..j + 1] == mark.args[..j] + [mark.args[j]];
          assert LabelsFor(kind, mark.args[..j + 1]) == LabelsFor(kind, mark.args[..j]) + {Label(kind, mark.args[j])};
          labels := labels + {Label(kind, mark.args[j])};
          j := j + 1;
        }
        assert mark.args[..j] == mark.args;
      }
      i := i + 1;
    }
    assert marks[..i] == marks;
    var collected := labels;
    var rest := uniqueLabels.Keys;
    while rest != {}
      invariant rest <= uniqueLabels.Keys
      invariant labels == collected + UniqueLabelsFor(uniqueLabels, uniqueLabels.Keys - rest)
      decreases rest
    {
      var k :| k in rest;
      UniqueLabelsForStep(uniqueLabels, rest, k);
      labels := labels + {Label(k, uniqueLabels[k])};
      rest := rest - {k};
    }
    assert uniqueLabels.Keys - rest == uniqueLabels.Keys;
    r := Success(labels);
  }

  lemma UniqueLabelsForStep(unique: map<Value, Value>, rest: set<Value>, k: Value)
    requires rest <= unique.Keys && k in rest
    ensures UniqueLabelsFor(unique, unique.Keys - (rest - {k})) ==
            UniqueLabelsFor(unique, unique.Keys - rest) + {Label(k, unique[k])}
  {
    assert unique.Keys - (rest - {k}) == (unique.Keys - rest) + {k};
  }

  /** Once the loop has raised on a prefix, the whole run raises the same error. */
  lemma {:induction false} FailureSticks(ms: seq<Marker>, n: nat)
    requires n <= |ms| && CollectAll(ms[..n]).Failure?
    ensures CollectAll(ms) == CollectAll(ms[..n])
    decreases |ms| - n
  {
    if n == |ms| {
      assert ms[..n] == ms;
    } else {
      assert ms[..n + 1][..n] == ms[..n];
      FailureSticks(ms, n + 1);
    }
  }

  /** Some marker in `ms` has kind `k`. */
  ghost predicate KindSeen(ms: seq<Marker>, k: Value) {
    exists i :: 0 <= i < |ms| && KindOf(ms[i]) == Some(k)
  }

  /** The marker at `i` is the first one of its kind in `ms`. */
  ghost predicate FirstOfKind(ms: seq<Marker>, i: int) {
    0 <= i < |ms| && KindOf(ms[i]).Some? && !KindSeen(ms[..i], KindOf(ms[i]).value)
  }

  /** `v` is the first argument of the first marker of kind `k`. */
  ghost predicate FirstValue(ms: seq<Marker>, k: Value, v: Value) {
    exists i :: FirstOfKind(ms, i) && KindOf(ms[i]) == Some(k) && |ms[i].args| > 0 && ms[i].args[0] == v
  }

  /** Some marker of the label's kind carries the label's value. */
  ghost predicate Carries(ms: seq<Marker>, l: Label) {
    exists i :: 0 <= i < |ms| && KindOf(ms[i]) == Some(l.kind) && l.value in ms[i].args
  }

  /** The markers `allure_labels` accepts without raising. */
  ghost predicate WellFormed(ms: seq<Marker>) {
    forall i :: 0 <= i < |ms| ==>
      KindOf(ms[i]).Some? && (KindOf(ms[i]).value in UNIQUE_KINDS && FirstOfKind(ms, i) ==> |ms[i].args| > 0)
  }

  /** What the collected state holds after the loop has run over `ms`. */
  ghost predicate Describes(ms: seq<Marker>, acc: Collected) {
    (forall k :: k in acc.unique <==> k in UNIQUE_KINDS && KindSeen(ms, k)) &&
    (forall k :: k in acc.unique ==> FirstValue(ms, k, acc.unique[k])) &&
    (forall l :: l in acc.others <==> l.kind !in UNIQUE_KINDS && Carries(ms, l))
  }

  lemma KindSeenSnoc(ms: seq<Marker>, k: Value)
    requires |ms| > 0
    ensures KindSeen(ms, k) <==> KindSeen(ms[..|ms| - 1], k) || KindOf(ms[|ms| - 1]) == Some(k)
  {
    var p := ms[..|ms| - 1];
    if KindSeen(ms, k) && KindOf(ms[|ms| - 1]) != Some(k) {
      var i :| 0 <= i < |ms| && KindOf(ms[i]) == Some(k);
      assert p[i] == ms[i];
    }
    if KindSeen(p, k) {
      var i :| 0 <= i < |p| && KindOf(p[i]) == Some(k);
      assert ms[i] == p[i];
    }
  }

  lemma FirstOfKindSnoc(ms: seq<Marker>, i: int)
    requires 0 <= i < |ms| - 1
    ensures FirstOfKind(ms, i) <==> FirstOfKind(ms[..|ms| - 1], i)
  {
    assert ms[..|ms| - 1][..i] == ms[..i];
  }

  lemma CarriesSnoc(ms: seq<Marker>, l: Label)
    requires |ms| > 0
    ensures Carries(ms, l) <==>
      Carries(ms[..|ms| - 1], l) || (KindOf(ms[|ms| - 1]) == Some(l.kind) && l.value in ms[|ms| - 1].args)
  {
    var p := ms[..|ms| - 1];
    if Carries(ms, l) {
      var i :| 0 <= i < |ms| && KindOf(ms[i]) == Some(l.kind) && l.value in ms[i].args;
      if i < |p| { assert p[i] == ms[i]; }
    }
    if Carries(p, l) {
      var i :| 0 <= i < |p| && KindOf(p[i]) == Some(l.kind) && l.value in p[i].args;
      assert ms[i] == p[i];
    }
  }

  lemma FirstValueSnoc(ms: seq<Marker>, k: Value, v: Value)
    requires |ms| > 0
    ensures FirstValue(ms, k, v) <==>
      FirstValue(ms[..|ms| - 1], k, v) ||
      (!KindSeen(ms[..|ms| - 1], k) && KindOf(ms[|ms| - 1]) == Some(k) && |ms[|ms| - 1].args| > 0 && ms[|ms| - 1].args[0] == v)
  {
    var n := |ms| - 1;
    var p := ms[..n];
    if FirstValue(ms, k, v) {
      var i :| FirstOfKind(ms, i) && KindOf(ms[i]) == Some(k) && |ms[i].args| > 0 && ms[i].args[0] == v;
      if i < n {
        FirstOfKindSnoc(ms, i);
        assert p[i] == ms[i];
        assert FirstValue(p, k, v);
      } else {
        assert ms[..i] == p;
      }
    }
    if FirstValue(p, k, v) {
      var i :| FirstOfKind(p, i) && KindOf(p[i]) == Some(k) && |p[i].args| > 0 && p[i].args[0] == v;
      FirstOfKindSnoc(ms, i);
      assert ms[i] == p[i];
    }
    if !KindSeen(p, k) && KindOf(ms[n]) == Some(k) && |ms[n].args| > 0 && ms[n].args[0] == v {
      assert ms[..n] == p;
      assert FirstOfKind(ms, n);
    }
  }

  lemma WellFormedSnoc(ms: seq<Marker>)
    requires |ms| > 0
    ensures WellFormed(ms) <==>
      WellFormed(ms[..|ms| - 1]) && KindOf(ms[|ms| - 1]).Some? &&
      (KindOf(ms[|ms| - 1]).value in UNIQUE_KINDS && !KindSeen(ms[..|ms| - 1], KindOf(ms[|ms| - 1]).value) ==> |ms[|ms| - 1].args| > 0)
  {
    var n := |ms| - 1;
    var p := ms[..n];
    assert ms[..n] == p;
    forall i | 0 <= i < n ensures FirstOfKind(ms, i) <==> FirstOfKind(p, i) && ms[i] == p[i] {
      FirstOfKindSnoc(ms, i);
    }
  }

  /** One iteration keeps the description and raises exactly on a malformed last marker. */
  lemma StepSpec(ms: seq<Marker>, acc: Collected)
    requires |ms| > 0 && Describes(ms[..|ms| - 1], acc)
    ensures CollectStep(acc, ms[|ms| - 1]).Success? <==>
      KindOf(ms[|ms| - 1]).Some? &&
      (KindOf(ms[|ms| - 1]).value in UNIQUE_KINDS && !KindSeen(ms[..|ms| - 1], KindOf(ms[|ms| - 1]).value) ==> |ms[|ms| - 1].args| > 0)
    ensures CollectStep(acc, ms[|ms| - 1]).Success? ==> Describes(ms, CollectStep(acc, ms[|ms| - 1]).value)
  {
    var n := |ms| - 1;
    var p := ms[..n];
    var m := ms[n];
    if CollectStep(acc, m).Success? {
      var acc' := CollectStep(acc, m).value;
      var kind := KindOf(m).value;
      forall k ensures k in acc'.unique <==> k in UNIQUE_KINDS && KindSeen(ms, k) {
        KindSeenSnoc(ms, k);
      }
      forall k | k in acc'.unique ensures FirstValue(ms, k, acc'.unique[k]) {
        FirstValueSnoc(ms, k, acc'.unique[k]);
      }
      forall l: Label ensures l in acc'.others <==> l.kind !in UNIQUE_KINDS && Carries(ms, l) {
        CarriesSnoc(ms, l);
      }
    }
  }

  /** The loop succeeds exactly on well-formed markers, and its state is then described by them. */
  lemma {:induction false} CollectAllSpec(ms: seq<Marker>)
    ensures CollectAll(ms).Success? <==> WellFormed(ms)
    ensures CollectAll(ms).Success? ==> Describes(ms, CollectAll(ms).value)
    decreases |ms|
  {
    if |ms| > 0 {
      var p := ms[..|ms| - 1];
      CollectAllSpec(p);
      WellFormedSnoc(ms);
      if CollectAll(p).Success? {
        StepSpec(ms, CollectAll(p).value);
      }
    }
  }

  /** There is one first value per kind. */
  lemma FirstValueUnique(ms: seq<Marker>, k: Value, v1: Value, v2: Value)
    requires FirstValue(ms, k, v1) && FirstValue(ms, k, v2)
    ensures v1 == v2
  {
    var i1 :| FirstOfKind(ms, i1) && KindOf(ms[i1]) == Some(k) && |ms[i1].args| > 0 && ms[i1].args[0] == v1;
    var i2 :| FirstOfKind(ms, i2) && KindOf(ms[i2]) == Some(k) && |ms[i2].args| > 0 && ms[i2].args[0] == v2;
    assert forall a :: 0 <= a < i1 ==> ms[..i1][a] == ms[a];
    assert forall a :: 0 <= a < i2 ==> ms[..i2][a] == ms[a];
  }

  /** `allure_labels` raises exactly when some marker lacks `label_type` or a unique kind's first marker has no argument. */
  lemma AllureLabelsRaises(ms: seq<Marker>)
    ensures LabelsOf(ms).Success? <==> WellFormed(ms)
  {
    CollectAllSpec(ms);
  }

  /**
   * A unique kind appears at most once: its one value is the first argument
   * of the first marker of that kind; later markers of the kind are ignored.
   */
  lemma AllureLabelsUniqueFirstWins(ms: seq<Marker>, k: Value, v: Value)
    requires LabelsOf(ms).Success? && k in UNIQUE_KINDS
    ensures Label(k, v) in LabelsOf(ms).value <==> FirstValue(ms, k, v)
    ensures KindSeen(ms, k) <==> exists w :: Label(k, w) in LabelsOf(ms).value
  {
    CollectAllSpec(ms);
    var acc := CollectAll(ms).value;
    if FirstValue(ms, k, v) {
      var i :| FirstOfKind(ms, i) && KindOf(ms[i]) == Some(k) && |ms[i].args| > 0 && ms[i].args[0] == v;
      assert KindSeen(ms, k);
      FirstValueUnique(ms, k, v, acc.unique[k]);
    }
    if Label(k, v) in LabelsOf(ms).value {
      assert Label(k, v) in UniqueLabelsFor(acc.unique, acc.unique.Keys);
    }
    if KindSeen(ms, k) {
      assert Label(k, acc.unique[k]) in LabelsOf(ms).value;
    }
    if exists w :: Label(k, w) in LabelsOf(ms).value {
      var w :| Label(k, w) in LabelsOf(ms).value;
      assert Label(k, w) in UniqueLabelsFor(acc.unique, acc.unique.Keys);
    }
  }

  /** Two labels of one unique kind are the same label. */
  lemma AllureLabelsUniqueOnce(ms: seq<Marker>, k: Value, v1: Value, v2: Value)
    requires LabelsOf(ms).Success? && k in UNIQUE_KINDS
    requires Label(k, v1) in LabelsOf(ms).value && Label(k, v2) in LabelsOf(ms).value
    ensures v1 == v2
  {
    AllureLabelsUniqueFirstWins(ms, k, v1);
    AllureLabelsUniqueFirstWins(ms, k, v2);
    FirstValueUnique(ms, k, v1, v2);
  }

  /**
   * Every other kind accumulates as a set: a label of it is present exactly
   * when some marker of that kind carries the value.
   */
  lemma AllureLabelsOthers(ms: seq<Marker>, k: Value, v: Value)
    requires LabelsOf(ms).Success? && k !in UNIQUE_KINDS
    ensures Label(k, v) in LabelsOf(ms).value <==> Carries(ms, Label(k, v))
  {
    CollectAllSpec(ms);
  }
}
