/**
 * Test items and markers as the extractor sees them, and the marker lookups
 * of allure-pytest/src/utils.py: `get_marker_value` and the small extractors
 * built on it (title, description, HTML description, links).
 *
 * pytest's own marker resolution is not modelled: an item carries its
 * markers already in pytest's `iter_markers()` order (closest node first),
 * and the closest marker of a name is the first one of that name, which is
 * how pytest defines `get_closest_marker`.
 */
module Items {
  import opened Wrappers

  /** The Python values that appear as marker arguments. */
  datatype Value = NoneValue | Bool(b: bool) | Int(i: int) | Str(s: string)

  /** Python truthiness of a value. */
  predicate Truthy(v: Value) {
    match v
    case NoneValue => false
    case Bool(b) => b
    case Int(i) => i != 0
    case Str(s) => s != ""
  }

  /** A marker: its name, positional arguments and keyword arguments (in dict order, keys distinct). */
  datatype Marker = Marker(name: string, args: seq<Value>, kwargs: seq<(string, Value)>)

  /**
   * A test item: its `::`-separated node id, its name, its markers in
   * `iter_markers()` order, the keys of `item.keywords` and the resolved
   * arguments `item.funcargs`.
   */
  datatype Item = Item(
    nodeid: string,
    name: string,
    markers: seq<Marker>,
    keywords: seq<string>,
    funcargs: map<string, Value>)

  /** An exception the extractor raises itself (`KeyError`, `IndexError`). */
  datatype PyError = KeyError(key: string) | IndexError

  const ALLURE_DISPLAY_NAME_MARK := "allure_display_name"
  const ALLURE_DESCRIPTION_MARK := "allure_description"
  const ALLURE_DESCRIPTION_HTML_MARK := "allure_description_html"
  const ALLURE_LABEL_MARK := "allure_label"
  const ALLURE_LINK_MARK := "allure_link"

  /** `kwargs[key]`: the value of the keyword argument, or nothing (a `KeyError` in Python). */
  function KwargLookup(kwargs: seq<(string, Value)>, key: string): (r: Option<Value>)
    ensures r.None? <==> forall i :: 0 <= i < |kwargs| ==> kwargs[i].0 != key
    ensures r.Some? ==> exists i :: 0 <= i < |kwargs| && kwargs[i] == (key, r.value)
  {
    if |kwargs| == 0 then None
    else if kwargs[0].0 == key then Some(kwargs[0].1)
    else
      var r := KwargLookup(kwargs[1..], key);
      assert forall i :: 1 <= i < |kwargs| ==> kwargs[i] == kwargs[1..][i - 1];
      r
  }

  /** `kwargs.get(key)`: the value, or `None` when the key is missing. */
  function KwargGet(kwargs: seq<(string, Value)>, key: string): Value {
    match KwargLookup(kwargs, key)
    case Some(v) => v
    case None => NoneValue
  }

  /** `iter_markers(name=name)`: the markers with that name, in iteration order. */
  function MarkersNamed(ms: seq<Marker>, name: string): (r: seq<Marker>)
    ensures forall m :: m in r <==> m in ms && m.name == name
    ensures |r| <= |ms|
  {
    if |ms| == 0 then []
    else
      var rest := MarkersNamed(ms[1..], name);
      assert ms == [ms[0]] + ms[1..];
      if ms[0].name == name then [ms[0]] + rest else rest
  }

  /** The first marker `iter_markers` yields is the earliest one with that name. */
  lemma {:induction false} FirstNamed(ms: seq<Marker>, name: string)
    requires |MarkersNamed(ms, name)| > 0
    ensures exists i :: 0 <= i < |ms| && ms[i] == MarkersNamed(ms, name)[0] &&
                        forall j :: 0 <= j < i ==> ms[j].name != name
  {
    if ms[0].name != name {
      FirstNamed(ms[1..], name);
      var i :| 0 <= i < |ms[1..]| && ms[1..][i] == MarkersNamed(ms[1..], name)[0] &&
               forall j :: 0 <= j < i ==> ms[1..][j].name != name;
      assert ms[i + 1] == ms[1..][i];
      assert forall j :: 1 <= j < i + 1 ==> ms[j] == ms[1..][j - 1];
    } else {
      assert ms[0] == MarkersNamed(ms, name)[0];
    }
  }

  /** `iter_markers` keeps the order of the markers: filtering a concatenation concatenates the filtered runs. */
  lemma {:induction false} MarkersNamedAppend(a: seq<Marker>, b: seq<Marker>, name: string)
    ensures MarkersNamed(a + b, name) == MarkersNamed(a, name) + MarkersNamed(b, name)
    decreases |a|
  {
    if |a| == 0 {
      assert a + b == b;
    } else {
      assert (a + b)[0] == a[0];
      assert (a + b)[1..] == a[1..] + b;
      MarkersNamedAppend(a[1..], b, name);
    }
  }

  /** A single marker is kept exactly when it has the name. */
  lemma MarkersNamedSingle(m: Marker, name: string)
    ensures MarkersNamed([m], name) == if m.name == name then [m] else []
  {
    assert [m][1..] == [];
  }

  function IterMarkers(item: Item, name: string): seq<Marker> {
    MarkersNamed(item.markers, name)
  }

  /** `get_closest_marker(name)`: the first marker of that name, if any. */
  function Closest(item: Item, name: string): Option<Marker> {
    var named := IterMarkers(item, name);
    if |named| > 0 then Some(named[0]) else None
  }

  /**
   * The marker at `i` is the closest one named `name`: it has that name and
   * no marker before it does.
   */
  ghost predicate ClosestAt(item: Item, name: string, i: int) {
    0 <= i < |item.markers| && item.markers[i].name == name &&
    forall j :: 0 <= j < i ==> item.markers[j].name != name
  }

  /** `v` is the first positional argument of the closest marker named `name`. */
  ghost predicate ClosestValue(item: Item, name: string, v: Value) {
    exists i :: ClosestAt(item, name, i) && |item.markers[i].args| > 0 && item.markers[i].args[0] == v
  }

  /**
   * `get_marker_value(item, keyword)`: the first positional argument of the
   * closest marker named `keyword`; nothing when there is no such marker or
   * it has no positional arguments.
   */
  function GetMarkerValue(item: Item, keyword: string): (r: Option<Value>)
    ensures r.None? <==> forall i :: ClosestAt(item, keyword, i) ==> |item.markers[i].args| == 0
    ensures r.Some? ==> ClosestValue(item, keyword, r.value)
  {
    match Closest(item, keyword)
    case Some(marker) =>
      var named := IterMarkers(item, keyword);
      FirstNamed(item.markers, keyword);
      var i :| 0 <= i < |item.markers| && item.markers[i] == named[0] &&
               forall j :: 0 <= j < i ==> item.markers[j].name != keyword;
      assert ClosestAt(item, keyword, i);
      ClosestUnique(item, keyword, i);
      if |marker.args| > 0 then Some(marker.args[0]) else None
    case None =>
      assert forall i :: 0 <= i < |item.markers| ==> item.markers[i] !in IterMarkers(item, keyword) ==> item.markers[i].name != keyword;
      None
  }

  /** There is at most one closest marker of a name. */
  lemma ClosestUnique(item: Item, name: string, i: int)
    requires ClosestAt(item, name, i)
    ensures forall j :: ClosestAt(item, name, j) ==> j == i
  {
  }

  /** A marker name has at most one closest value. */
  lemma ClosestValueUnique(item: Item, name: string, v: Value)
    requires ClosestValue(item, name, v)
    ensures forall w :: ClosestValue(item, name, w) ==> w == v
  {
    var i :| ClosestAt(item, name, i) && |item.markers[i].args| > 0 && item.markers[i].args[0] == v;
    ClosestUnique(item, name, i);
  }

  /** `allure_title`: the value of the closest `allure_display_name` marker. */
  function AllureTitle(item: Item): (r: Option<Value>)
    ensures r.Some? ==> ClosestValue(item, ALLURE_DISPLAY_NAME_MARK, r.value)
    ensures r.None? ==> forall i :: ClosestAt(item, ALLURE_DISPLAY_NAME_MARK, i) ==> |item.markers[i].args| == 0
  {
    GetMarkerValue(item, ALLURE_DISPLAY_NAME_MARK)
  }

  /** `allure_description_html`: the value of the closest `allure_description_html` marker. */
  function AllureDescriptionHtml(item: Item): (r: Option<Value>)
    ensures r.Some? ==> ClosestValue(item, ALLURE_DESCRIPTION_HTML_MARK, r.value)
    ensures r.None? ==> forall i :: ClosestAt(item, ALLURE_DESCRIPTION_HTML_MARK, i) ==> |item.markers[i].args| == 0
  {
    GetMarkerValue(item, ALLURE_DESCRIPTION_HTML_MARK)
  }

  /**
   * `allure_description`: the closest `allure_description` value when it is
   * truthy, otherwise `docstring`, the `__doc__` of the item's test function
   * (nothing when the item has no function or the function no docstring).
   */
  function AllureDescription(item: Item, docstring: Option<Value>): (r: Option<Value>)
    ensures forall v :: ClosestValue(item, ALLURE_DESCRIPTION_MARK, v) && Truthy(v) ==> r == Some(v)
    ensures (forall i :: ClosestAt(item, ALLURE_DESCRIPTION_MARK, i) ==>
               |item.markers[i].args| == 0 || !Truthy(item.markers[i].args[0])) ==> r == docstring
  {
    var description := GetMarkerValue(item, ALLURE_DESCRIPTION_MARK);
    if description.Some? && Truthy(description.value) then
      ClosestValueUnique(item, ALLURE_DESCRIPTION_MARK, description.value);
      description
    else docstring
  }

  /** A link: `(link_type, url, name)`. */
  datatype Link = Link(linkType: Value, url: Value, name: Value)

  /**
   * The link one `allure_link` marker describes; evaluating the tuple reads
   * `kwargs["link_type"]`, then `args[0]`, then `kwargs["name"]`, and the
   * first one missing raises.
   */
  function LinkOf(m: Marker): (r: Result<Link, PyError>)
    ensures r.Success? <==> KwargLookup(m.kwargs, "link_type").Some? && |m.args| > 0 && KwargLookup(m.kwargs, "name").Some?
    ensures r.Success? ==> r.value == Link(KwargLookup(m.kwargs, "link_type").value, m.args[0], KwargLookup(m.kwargs, "name").value)
  {
    match KwargLookup(m.kwargs, "link_type")
    case None => Failure(KeyError("link_type"))
    case Some(linkType) =>
      if |m.args| == 0 then Failure(IndexError)
      else
        match KwargLookup(m.kwargs, "name")
        case None => Failure(KeyError("name"))
        case Some(name) => Success(Link(linkType, m.args[0], name))
  }

  /**
   * `list(allure_links(item))` over the given `allure_link` markers: one
   * link per marker in order, or the error of the first malformed marker.
   */
  function LinksOf(ms: seq<Marker>): (r: Result<seq<Link>, PyError>)
    ensures r.Success? <==> forall i :: 0 <= i < |ms| ==> LinkOf(ms[i]).Success?
    ensures r.Success? ==> |r.value| == |ms| && forall i :: 0 <= i < |ms| ==> r.value[i] == LinkOf(ms[i]).value
  {
    if |ms| == 0 then Success([])
    else
      assert forall i :: 1 <= i < |ms| ==> ms[i] == ms[1..][i - 1];
      match LinkOf(ms[0])
      case Failure(e) => Failure(e)
      case Success(link) =>
        match LinksOf(ms[1..])
        case Failure(e) => Failure(e)
        case Success(rest) => Success([link] + rest)
  }

  /** `allure_links(item)`: the links of every `allure_link` marker, duplicates kept. */
  function AllureLinks(item: Item): (r: Result<seq<Link>, PyError>)
    ensures r.Success? <==> forall m :: m in IterMarkers(item, ALLURE_LINK_MARK) ==> LinkOf(m).Success?
    ensures r.Success? ==> |r.value| == |IterMarkers(item, ALLURE_LINK_MARK)|
    ensures r.Success? ==> forall i :: 0 <= i < |r.value| ==> r.value[i] == LinkOf(IterMarkers(item, ALLURE_LINK_MARK)[i]).value
  {
    LinksOf(IterMarkers(item, ALLURE_LINK_MARK))
  }
}
