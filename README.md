# allure-pytest metadata extraction, modelled in Dafny

This project models `allure-pytest/src/utils.py`, the helpers the Allure
pytest plugin uses to turn a pytest test item into report metadata:

- marker lookups (`get_marker_value`, title, description, links);
- label collection (`allure_label`, `allure_labels`), where the six unique label kinds keep one value and every other kind keeps a set of values;
- names derived from the node id `path/to/file.py::Class::test[params]` (`allure_package`, `allure_full_name`, `allure_name`, `allure_suite_labels`);
- the textual form of pytest markers (`mark_to_str`, `pytest_markers`);
- test statuses (`get_status`, `get_outcome_status`, `get_status_details`, `get_pytest_report_status`).

Modules:

- `Wrappers` (wrappers.dfy): `Option` and `Result`.
- `PyStr` (pystr.dfy): the Python string operations the helpers use. This covers `split` with its round trips against `join`, `rsplit(c, 1)` and `replace`.
- `Items` (items.dfy): values, markers and items, and the marker lookups. An exception the helpers raise themselves (`KeyError`, `IndexError`) is a `Failure`.
- `Labels` (labels.dfy): `allure_label` and `allure_labels`. Both are methods with loops, proved against left-fold specification functions. The lemmas characterise those functions: when the collection raises, that the first value of a unique kind wins, and that the other kinds are kept as sets.
- `Naming` (naming.dfy): package, full name, title and the default suite labels. `allure_suite_labels` is a method with a loop.
- `Rendering` (rendering.dfy): `mark_to_str` and `pytest_markers`.
- `Statuses` (statuses.dfy): the status helpers. `get_pytest_report_status` is a method with a loop.

An item carries its markers already in pytest's `iter_markers()` order,
closest node first. So the closest marker of a name is the first marker with
that name, which is how pytest defines `get_closest_marker`.

Two behaviours of the code are easy to miss. The model follows the code:

- `allure_suite_labels` keeps the class piece only when the third `::` piece is non-empty (`if tail`). Having three pieces is not enough: `a.py::C::` gets no sub-suite.
- `get_pytest_report_status` returns nothing when none of `failed`, `passed` and `skipped` is set. `Statuses.ReportStatus` returns `None` in that case.

## Model

| member | source | states |
|---|---|---|
| Items.KwargLookup | allure-pytest/src/utils.py:62 | `kwargs[key]` is missing exactly when no keyword argument has that key. Otherwise it is the value paired with the key. |
| Items.MarkersNamed | allure-pytest/src/utils.py:61 | `iter_markers(name=…)` yields exactly the item's markers with that name, and no more of them than the item has. |
| Items.MarkersNamedAppend | allure-pytest/src/utils.py:61 | `iter_markers` keeps the markers' order: filtering a concatenation gives the two filtered runs concatenated. |
| Items.MarkersNamedSingle | allure-pytest/src/utils.py:61 | A single marker is kept exactly when it has the name. |
| Items.GetMarkerValue | allure-pytest/src/utils.py:29-31 | The value is absent exactly when the closest marker of that name is missing or has no positional argument. Otherwise it is that marker's first positional argument. |
| Items.AllureTitle | allure-pytest/src/utils.py:34-35 | The title is the first argument of the closest `allure_display_name` marker, or absent when there is none. |
| Items.AllureDescription | allure-pytest/src/utils.py:38-43 | When the closest `allure_description` marker's first argument is truthy, it is the result. Otherwise the docstring is the result. |
| Items.AllureDescriptionHtml | allure-pytest/src/utils.py:46-47 | The first argument of the closest `allure_description_html` marker, or absent. |
| Items.LinkOf | allure-pytest/src/utils.py:76 | A link marker succeeds exactly when it has `link_type`, a positional argument and `name`. The link is `(link_type, args[0], name)`. |
| Items.LinksOf | allure-pytest/src/utils.py:74-76 | Every `allure_link` marker gives one link, in order, when all are well formed. Otherwise the result is an error. |
| Items.AllureLinks | allure-pytest/src/utils.py:74-76 | `allure_links` succeeds exactly when every `allure_link` marker is well formed. It then gives one link per marker, in marker order. |
| Labels.AllureLabel | allure-pytest/src/utils.py:50-55 | The loop's list equals the arguments of every `allure_label` marker whose `label_type` equals the kind, in marker order. |
| Labels.ValuesOfKindAppend | allure-pytest/src/utils.py:50-55 | Collecting over two runs of markers concatenates their values, so marker order is kept. |
| Labels.ValuesOfKindMembers | allure-pytest/src/utils.py:52-54 | A value is collected exactly when some marker of the kind carries it. |
| Labels.AllureLabels | allure-pytest/src/utils.py:58-71 | Both loops together compute the fold `LabelsOf` over the `allure_label` markers, with the same error raised. |
| Labels.CollectAllSpec | allure-pytest/src/utils.py:61-68 | After the first loop, the dict holds exactly the unique kinds seen, each with its first value. The set holds exactly the other kinds' labels. |
| Labels.AllureLabelsRaises | allure-pytest/src/utils.py:62-65 | `allure_labels` raises exactly when some marker lacks `label_type`, or the first marker of a unique kind has no argument. |
| Labels.AllureLabelsUniqueFirstWins | allure-pytest/src/utils.py:63-65 | A label of a unique kind is present exactly when its value is the first argument of that kind's first marker. Such a kind is labelled exactly when some marker has it. |
| Labels.AllureLabelsUniqueOnce | allure-pytest/src/utils.py:19-26 | A unique kind never carries two different values. |
| Labels.AllureLabelsOthers | allure-pytest/src/utils.py:66-68 | A label of any other kind is present exactly when some marker of that kind carries the value. |
| PyStr.JoinSplit | allure-pytest/src/utils.py:104 | Joining the pieces of `split(sep)` with `sep` gives the string back. |
| PyStr.SplitPartsFree | allure-pytest/src/utils.py:104 | No piece of `split(sep)` contains `sep`. |
| PyStr.SplitJoin | allure-pytest/src/utils.py:98 | Splitting a join of separator-free pieces with a non-overlapping separator gives the pieces back. |
| PyStr.SplitFirstEarliest | allure-pytest/src/utils.py:104 | The separator occurs nowhere inside the first piece of a split, so that piece ends at the separator's earliest occurrence. |
| PyStr.BeforeLast | allure-pytest/src/utils.py:105 | `rsplit(c, 1)[0]` is a prefix. When `c` occurs, it ends just before the last `c`. Otherwise it is the whole string. |
| PyStr.AfterLast | allure-pytest/src/utils.py:128 | `rsplit(c, 1)[-1]` has no `c`. The string is the part before the last `c`, then `c`, then this part. |
| PyStr.Replace | allure-pytest/src/utils.py:106 | `replace(a, b)` keeps the length and changes every `a`, and only those, into `b`. |
| PyStr.SplitAtLast | allure-pytest/src/utils.py:120 | `rsplit(c, 1)` of `a + c + b`, with `c` not in `b`, gives `a` and `b`. |
| Naming.NodePartsSpec | allure-pytest/src/utils.py:104 | The `::` pieces of a node id rebuild it, and none of them contains `::`. |
| Naming.Head | allure-pytest/src/utils.py:104-105 | The head is a prefix of the node id with no `::` starting inside it. It is followed by `::` or is the whole node id, so it ends at the first `::`. |
| Naming.AllurePackage | allure-pytest/src/utils.py:103-106 | The package is the head up to its last `.` (the whole head when it has none), with every `/` turned into `.`. So it has no `/`. |
| Naming.LastPart | allure-pytest/src/utils.py:119 | `parts[-1]` is the whole node id when it has no `::`. Otherwise the node id is the other pieces joined with `::`, then `::`, then this piece, which itself contains no `::`. |
| Naming.TestName | allure-pytest/src/utils.py:119-120 | The test name is the last piece up to its last `[`, or the whole piece when it has none. |
| Naming.ClassSuffix | allure-pytest/src/utils.py:118 | The class part is `.` + the second piece exactly when there are more than two pieces. Otherwise it is empty. |
| Naming.AllureFullName | allure-pytest/src/utils.py:115-122 | The full name is the escaped package, class part, `#` and test name. Those pieces are pinned by Naming.AllurePackage, Naming.ClassSuffix and Naming.TestName. Naming.FullNameOfMethod and Naming.FullNameOfFunction give its value for the usual node-id shapes. |
| Naming.FullNameOfMethod | allure-pytest/src/utils.py:115-122 | `dir.ext::Class::test[params]` has the full name `dir.Class#test`, with `/` in `dir` turned into `.`. |
| Naming.FullNameOfFunction | allure-pytest/src/utils.py:115-122 | `dir.ext::test[params]` has the full name `dir#test`, with `/` in `dir` turned into `.`. |
| Naming.NodePartsOfThree | allure-pytest/src/utils.py:116 | A node id `head::cls::test` with no `:` inside the pieces splits into exactly those three pieces. |
| Naming.FormatArguments | allure-pytest/src/utils.py:112 | The format arguments hold every parameter and every function argument. A function argument wins over a parameter of the same name. |
| Naming.AllureName | allure-pytest/src/utils.py:109-112 | With a truthy title, the name is the title formatted with the merged arguments. Otherwise it is the escaped item name. |
| Naming.FileName | allure-pytest/src/utils.py:128 | The file name is the head after its last `/`, or the whole head. |
| Naming.SuiteModule | allure-pytest/src/utils.py:129 | The module is the file name up to its first `.`. |
| Naming.SuitePackage | allure-pytest/src/utils.py:128-130 | The package exists exactly when the head has a `/` with something before it. It is that directory part with `/` turned into `.`, and it is non-empty. |
| Naming.SuiteClass | allure-pytest/src/utils.py:126-127 | The class exists exactly when a non-empty third piece follows it. It is the second piece. |
| Naming.AllureSuiteLabels | allure-pytest/src/utils.py:125-138 | The result is the error `allure_labels` raises, or else the default suite labels for the kinds not labelled explicitly. |
| Naming.KeepDefaults | allure-pytest/src/utils.py:133-136 | The loop appends exactly the candidates, in order, whose kind is not explicit and whose value is non-empty. |
| Naming.DefaultSuiteLabelsSpec | allure-pytest/src/utils.py:131-136 | Only the parent-suite, suite and sub-suite kinds occur. Each is present exactly when that kind is not explicit and its value is non-empty. They come in that order, and no explicit kind is repeated. |
| Naming.SuiteLabelsOfMethod | allure-pytest/src/utils.py:125-138 | `pkg/mod.ext::Class::test` gets parent suite `pkg`, suite `mod` and sub-suite `Class`, each unless labelled explicitly. |
| Naming.SuiteLabelsOfFunction | allure-pytest/src/utils.py:125-138 | `pkg/mod.ext::test` gets parent suite `pkg` and suite `mod`, each unless labelled explicitly, and no sub-suite. |
| Rendering.RenderedParams | allure-pytest/src/utils.py:91-92 | The parameters are each positional argument represented, then `key=value` for each keyword argument, in order. |
| Rendering.MarkHead | allure-pytest/src/utils.py:93-96 | For pytest's seven own markers the head is exactly `@pytest.mark.` followed by the name. For every other marker it is the bare name. |
| Rendering.MarkToStr | allure-pytest/src/utils.py:90-100 | The text starts with the marker's head. It is the head alone exactly when the marker has no arguments. |
| Rendering.DecoratorIffPytestMark | allure-pytest/src/utils.py:93-96 | The text starts with `@pytest.mark.` exactly when the name is one of pytest's seven own markers. |
| Rendering.MarkToStrRoundTrip | allure-pytest/src/utils.py:97-99 | The head, the `, `-joined parameters and the closing `)` at the end are read back from the text unchanged. |
| Rendering.RenderKeywordsMembers | allure-pytest/src/utils.py:79-87 | A text is yielded exactly when some keyword is not excluded and names a marker, and the text renders that keyword's closest marker. |
| Rendering.RenderKeywordsAppend | allure-pytest/src/utils.py:80-87 | Each further keyword adds at most its own rendering, at the end, so keyword order is kept. |
| Rendering.PytestMarkers | allure-pytest/src/utils.py:79-87 | At most one text per keyword. Every text renders one of the item's markers whose name is neither `allure_`-prefixed nor `parametrize`. |
| Statuses.GetStatus | allure-pytest/src/utils.py:160-168 | Passed exactly without an exception. Failed exactly for an assertion error or `pytest.fail`. Skipped exactly for `pytest.skip` that is not a failure. Broken otherwise. |
| Statuses.GetOutcomeStatus | allure-pytest/src/utils.py:150-152 | Passed exactly when the outcome has no `excinfo`. Otherwise the status of its exception. |
| Statuses.GetStatusDetails | allure-pytest/src/utils.py:171-174 | Details exist exactly when the message or the trace is non-empty, and they hold both. |
| Statuses.ReportStatus | allure-pytest/src/utils.py:177-182 | A report has a status exactly when one of its flags is set. `failed` wins over `passed`, which wins over `skipped`. |
| Statuses.GetPytestReportStatus | allure-pytest/src/utils.py:177-182 | The loop returns the status of the first of `failed`, `passed`, `skipped` that is set, or nothing. |

## Left out

- `escape_name` (utils.py:141-147) is not interpreted. It is passed in as a function `escape`, together with its Python 2 branch.
- `represent` (from `allure_commons.utils`) is passed in as a function. Python's `str.format` applied to the title in `allure_name` is also passed in, as `format`.
- `format_exception`, `format_traceback` and `escape_non_unicode_symbols` are not modelled. `get_status_details` takes the formatted message and trace as inputs. `get_outcome_status_details` is not modelled separately, because it only hands `excinfo` to that formatting.
- `item.function.__doc__` is an input (`docstring`) of `AllureDescription`. Reflection on the item is not modelled.
- pytest's marker resolution and `item.keywords` are not modelled. Items carry their markers in `iter_markers()` order and their keywords as a sequence.
- `allure_links` and `pytest_markers` are generators. They are modelled as the lists they produce, so an error in a later link marker is not deferred until iteration reaches it.
- Python values are `None`, booleans, integers and strings. Cross-type equality (`1 == True`) and hashing are not modelled. Marker keyword arguments are assumed to have distinct keys, as in a dict.
- The label kind strings (`severity`, `framework`, `host`, `suite`, `parentSuite`, `subSuite`) come from `allure_commons.types.LabelType`, which is not part of this model.
- An exception is described by three flags: `AssertionError`, pytest's fail exception and pytest's skip exception. Python's class hierarchy and exception truthiness (always true) are not modelled.
- Items.GetMarkerValue: an explicit `None` first argument is returned as `Some(NoneValue)`, which Python cannot tell apart from a missing value. `Some(NoneValue)` stands for Python's `None`: `Items.AllureTitle` and `Items.AllureDescriptionHtml` return it where Python returns `None`, while `Items.AllureDescription` and `Naming.AllureName` only test it for truthiness.
- Naming.FullNameOfMethod and Naming.FullNameOfFunction cover node ids whose pieces contain no `:`, whose extension has no `.` and whose parameters have no `[`.
- Naming.SuiteLabelsOfMethod and Naming.SuiteLabelsOfFunction cover only node ids `pkg/mod.ext::[Class::]test` whose pieces contain no `:`, whose module name `mod` has no `.` or `/`, whose extension `ext` has no `/`, and whose `pkg` and `mod` are non-empty; for methods `Class` and `test` must be non-empty too. An empty `pkg` (`/mod.py::t`) gives no parent suite, and an empty test piece gives no sub-suite (`if tail`), so those shapes fall outside the stated result.
- Rendering.MarkToStrRoundTrip holds only when the marker name has no `(` and no rendered parameter contains `, `. Otherwise the text is ambiguous.
- Rendering.DecoratorIffPytestMark assumes the marker name does not start with `@`. Otherwise a bare name could look like a decorator. An empty name is covered.
