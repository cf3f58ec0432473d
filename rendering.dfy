/**
 * The pytest markers of an item rendered as text, as allure-pytest/src/utils.py
 * does in `mark_to_str` and `pytest_markers`.
 *
 * `represent` (the textual form of a Python value) is foreign to this model:
 * it is passed in as a function and never interpreted.
 */
module Rendering {
  import opened Wrappers
  import opened PyStr
  import opened Items

  /** The marker names pytest itself defines; they are rendered as decorators. */
  const PYTEST_MARKS: set<string> := {"filterwarnings", "skip", "skipif", "xfail", "usefixtures", "tryfirst", "trylast"}

  const DECORATOR_PREFIX := "@pytest.mark."
  const PARAM_SEP := ", "

  /** `args + kwargs` of `mark_to_str`: each positional argument, then each `key=value`. */
  function RenderedParams(m: Marker, represent: Value -> string): (ps: seq<string>)
    ensures |ps| == |m.args| + |m.kwargs|
    ensures forall i :: 0 <= i < |m.args| ==> ps[i] == represent(m.args[i])
    ensures forall i :: 0 <= i < |m.kwargs| ==> ps[|m.args| + i] == m.kwargs[i].0 + "=" + represent(m.kwargs[i].1)
  {
    seq(|m.args|, i requires 0 <= i < |m.args| => represent(m.args[i])) +
    seq(|m.kwargs|, i requires 0 <= i < |m.kwargs| => m.kwargs[i].0 + "=" + represent(m.kwargs[i].1))
  }

  /** `@pytest.mark.name` for pytest's own markers, the bare name otherwise. */
  function MarkHead(name: string): (h: string)
    ensures |name| <= |h| && h[|h| - |name|..] == name
    ensures h != name <==> name in PYTEST_MARKS
    ensures name in PYTEST_MARKS ==> h == DECORATOR_PREFIX + name
  {
    if name in PYTEST_MARKS then DECORATOR_PREFIX + name else name
  }

  /**
   * `mark_to_str(marker)`: the head, followed by the parameters joined with
   * `, ` in parentheses when there are any.
   */
  function MarkToStr(m: Marker, represent: Value -> string): (r: string)
    ensures StartsWith(r, MarkHead(m.name))
    ensures r == MarkHead(m.name) <==> |m.args| == 0 && |m.kwargs| == 0
  {
    var params := RenderedParams(m, represent);
    var head := MarkHead(m.name);
    if |params| > 0 then
      var r := head + "(" + Join(PARAM_SEP, params) + ")";
      assert r[..|head|] == head;
      r
    else head
  }

  /**
   * A marker whose name does not start with `@` is rendered with the
   * `@pytest.mark.` prefix exactly when it is one of pytest's own markers.
   */
  lemma DecoratorIffPytestMark(m: Marker, represent: Value -> string)
    requires !StartsWith(m.name, "@")
    ensures StartsWith(MarkToStr(m, represent), DECORATOR_PREFIX) <==> m.name in PYTEST_MARKS
  {
    var r := MarkToStr(m, represent);
    if m.name !in PYTEST_MARKS {
      assert DECORATOR_PREFIX[0] == '@';
      if |m.name| > 0 {
        assert r[..|m.name|] == m.name;
        assert r[0] == m.name[0];
      } else if |r| > 0 {
        assert r == "(" + Join(PARAM_SEP, RenderedParams(m, represent)) + ")";
        assert r[0] == '(';
      }
    } else {
      assert r[..|MarkHead(m.name)|][..|DECORATOR_PREFIX|] == DECORATOR_PREFIX;
    }
  }

  /**
   * Reading a rendered marker back: the head before the first `(`, and the
   * `, `-separated parameters between it and a closing `)` at the very end.
   */
  function ParseMark(s: string): (string, Option<seq<string>>) {
    var head := Split(s, "(")[0];
    if head == s || |s| < |head| + 2 || s[|s| - 1] != ')' then (head, None)
    else (head, Some(Split(s[|head| + 1..|s| - 1], PARAM_SEP)))
  }

  lemma ParamSepNonOverlapping()
    ensures NonOverlapping(PARAM_SEP)
  {
    assert PARAM_SEP[1..][0] == ' ' && PARAM_SEP[..1][0] == ',';
  }

  /**
   * The rendering is faithful: when the marker name has no `(` and no
   * rendered parameter contains `, `, the head and the parameters can be read
   * back from the text.
   */
  lemma {:induction false} MarkToStrRoundTrip(m: Marker, represent: Value -> string)
    requires '(' !in m.name
    requires forall p :: p in RenderedParams(m, represent) ==> !Contains(p, PARAM_SEP)
    ensures ParseMark(MarkToStr(m, represent)) ==
            (MarkHead(m.name), if |m.args| + |m.kwargs| == 0 then None else Some(RenderedParams(m, represent)))
  {
    var params := RenderedParams(m, represent);
    var head := MarkHead(m.name);
    var r := MarkToStr(m, represent);
    assert '(' !in head by {
      if m.name in PYTEST_MARKS {
        assert head == DECORATOR_PREFIX + m.name;
        assert '(' !in DECORATOR_PREFIX;
      }
    }
    if |params| == 0 {
      FreeOfFirstChar(head, "(");
      SplitFree(head, "(");
    } else {
      var inner := Join(PARAM_SEP, params);
      assert r == head + "(" + (inner + ")");
      SplitLeadingFree(head, "(", inner + ")");
      assert r[|head| + 1..|r| - 1] == inner && r[|r| - 1] == ')';
      ParamSepNonOverlapping();
      SplitJoin(params, PARAM_SEP);
    }
  }

  /** Keywords `pytest_markers` skips: Allure's own markers and `parametrize`. */
  predicate Excluded(keyword: string) {
    StartsWith(keyword, "allure_") || keyword == "parametrize"
  }

  /** The closest marker of a name has that name and is one of the item's markers. */
  lemma ClosestIsNamed(item: Item, name: string)
    requires Closest(item, name).Some?
    ensures Closest(item, name).value in item.markers && Closest(item, name).value.name == name
  {
    assert IterMarkers(item, name)[0] in IterMarkers(item, name);
  }

  /** `s` is what the generator yields for keyword `k`: the rendering of its closest marker. */
  predicate Renders(item: Item, k: string, s: string, render: Marker -> string) {
    !Excluded(k) && Closest(item, k).Some? && s == render(Closest(item, k).value)
  }

  /**
   * The rendered markers of `keywords`, in order, as the generator yields
   * them; `render` is the rendering of one marker (`mark_to_str`).
   */
  function RenderKeywords(item: Item, keywords: seq<string>, render: Marker -> string): (r: seq<string>)
    ensures |r| <= |keywords|
  {
    if |keywords| == 0 then []
    else
      var k := keywords[0];
      var rest := RenderKeywords(item, keywords[1..], render);
      if Excluded(k) || Closest(item, k).None? then rest
      else [render(Closest(item, k).value)] + rest
  }

  /** A text is yielded exactly when some keyword renders to it. */
  lemma {:induction false} RenderKeywordsMembers(item: Item, keywords: seq<string>, render: Marker -> string)
    ensures forall s :: s in RenderKeywords(item, keywords, render) <==>
              exists k :: k in keywords && Renders(item, k, s, render)
    decreases |keywords|
  {
    if |keywords| > 0 {
      var k := keywords[0];
      var tail := keywords[1..];
      RenderKeywordsMembers(item, tail, render);
      assert keywords == [k] + tail;
      forall s | s in RenderKeywords(item, keywords, render)
        ensures exists k' :: k' in keywords && Renders(item, k', s, render)
      {
        if s !in RenderKeywords(item, tail, render) {
          assert Renders(item, k, s, render);
        } else {
          var k' :| k' in tail && Renders(item, k', s, render);
          assert k' in keywords;
        }
      }
      forall s, k' | k' in keywords && Renders(item, k', s, render)
        ensures s in RenderKeywords(item, keywords, render)
      {
        if k' != k {
          assert k' in tail;
        }
      }
    }
  }

  /** One more keyword adds at most its own rendering at the end. */
  lemma {:induction false} RenderKeywordsAppend(item: Item, keywords: seq<string>, k: string, render: Marker -> string)
    ensures RenderKeywords(item, keywords + [k], render) ==
            RenderKeywords(item, keywords, render) +
            (if Excluded(k) || Closest(item, k).None? then [] else [render(Closest(item, k).value)])
    decreases |keywords|
  {
    if |keywords| > 0 {
      assert (keywords + [k])[1..] == keywords[1..] + [k];
      RenderKeywordsAppend(item, keywords[1..], k, render);
    } else {
      assert ([] + [k])[1..] == [];
    }
  }

  /**
   * `list(pytest_markers(item))`: for each keyword of the item that is not
   * excluded and names a marker, the rendering of its closest marker; so
   * every text renders one of the item's markers whose name is not excluded.
   */
  function PytestMarkers(item: Item, represent: Value -> string): (r: seq<string>)
    ensures |r| <= |item.keywords|
    ensures forall s :: s in r ==> exists m :: m in item.markers && !Excluded(m.name) && s == MarkToStr(m, represent)
  {
    var render := m => MarkToStr(m, represent);
    var r := RenderKeywords(item, item.keywords, render);
    RenderKeywordsMembers(item, item.keywords, render);
    forall s | s in r
      ensures exists m :: m in item.markers && !Excluded(m.name) && s == MarkToStr(m, represent)
    {
      var k :| k in item.keywords && Renders(item, k, s, render);
      ClosestIsNamed(item, k);
    }
    r
  }
}
