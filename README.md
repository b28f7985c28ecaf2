# PyListenerTool in Dafny

A model of PyListenerTool's core: the `@Listener` class decorator and the static
event extractor `extract_listeners`, both in `PyListenerTool/__init__.py`.

- **Registry** (`registry.dfy`). A decorated object owns two dicts: the listener
  registry `_listeners` and the documentation store `_listener_docs`. The model
  is the class `Listener` with one field per dict. Its methods are those the
  decorator attaches: `addListener`, `_call`, `_addListenerDoc`,
  `buildListenerDocs` and the decorator returned by `on`.
- **Dispatch** (`dispatch.dfy`). The registry is a map from event name to an
  ordered list of handler records. `_call(event)` walks a snapshot of the list.
  It deletes each `once` record from the live list at index
  `i - del_count` before invoking its handler. A handler that raises is
  reported to its `on_error`, if it has one. A handler that raises something
  `except Exception` does not catch (`KeyboardInterrupt`, `SystemExit`) ends
  the pass there and leaves `_call`. The model specifies one pass by
  functions: `Reach` (how many records are visited), `Survivors` (what the
  visited part of the live list becomes) and `DispatchTrace` (the calls made,
  in order). `Listener.Call` runs the source's in-place loop and is proved
  equal to them.
- **DocStore** (`docstore.dfy`). `_listener_docs` is an insertion-ordered dict:
  a map plus the order its keys were first inserted in.
- **Render** (`render.dfy`). The Markdown and HTML documents are specified by
  functions that give each part of the text. The builder methods run the
  source's loops and are proved to produce exactly that text. Lemmas state
  the documents' layout:
  - parameters are numbered from 1;
  - the `<无>` placeholder appears exactly when an event has no parameters;
  - a divider follows every block but the last;
  - blocks appear in insertion order;
  - the title reports the number of distinct documented events;
  - the format chosen depends on `model`.
- **Decimal** (`decimal.dfy`). Decimal rendering of the numbers the documents
  print.
- **Extractor** (`extractor.dfy`). `extract_listeners` as a queue-driven
  breadth-first walk of a reduced syntax tree. It collects each first
  occurrence of the constant first argument of `self._call(...)` or
  `self._addListenerDoc(...)`. The method is proved equal to a specification
  that dedups the matches of the walk. The walk itself is proved to visit
  every node of the tree exactly once.
- **Wrappers** (`wrappers.dfy`). `Option` and `Result`.

Handlers are opaque. Each handler carries an `Outcome`, which is what
invoking it does: it returns, it raises an `Exception` with an error text,
or it raises another `BaseException`, which escapes. The
model has no threads. An asynchronous record's turn is the attempt to start
its thread, and that attempt is what its outcome describes. The source code
of the decorated class and `ast.parse` are replaced by an input: the parsed
tree, or the parse error's text.

## Model

| member | source | states |
|---|---|---|
| Registry.Listener.constructor | PyListenerTool/__init__.py:14-16 | `new_init` starts both dicts empty; the class name is kept for the titles |
| Registry.Listener.AddListener | PyListenerTool/__init__.py:22-34 | the event's list (created empty if absent) gains the new record at its end; every other event's list and the documentation store are unchanged |
| Dispatch.Register | PyListenerTool/__init__.py:30-34 | the registry after `addListener` has the old keys plus the event, the event's list is the old one (or empty) plus the record, other entries are unchanged |
| Registry.Listener.Call | PyListenerTool/__init__.py:38-61 | after `_call(event)` the event's list is `Fired`'s, other events and the docs are untouched, the calls made are those of the records visited (none for an unknown event), and the escaping exception, if any, is that of the last record visited |
| Registry.Listener.Retire | PyListenerTool/__init__.py:41-44 | one iteration's deletion: deleting at `i - del_count` leaves the live list equal to the kept records of snapshot[0..i] followed by snapshot[i+1..], and `del_count` counts the `once` records seen |
| Dispatch.DeleteOnce | PyListenerTool/__init__.py:41-43 | the index `i - del_count` is in range of the live list and holds exactly the snapshot's record i, so `del` removes the right record |
| Dispatch.DeletedStep | PyListenerTool/__init__.py:43-44 | deleting at `i - del_count` takes the live list from the state before record i to the state after it |
| Dispatch.KeepStep | PyListenerTool/__init__.py:42 | a record that is not `once` leaves the live list as it is |
| Dispatch.KeptCount | PyListenerTool/__init__.py:40-44 | records kept plus `del_count` equals the number of snapshot records visited |
| Dispatch.PassEnds | PyListenerTool/__init__.py:41-61 | after i records the live prefix is `Survivors` of the first i snapshot records and the calls made are their `DispatchTrace` |
| Dispatch.PassStart | PyListenerTool/__init__.py:41 | before the first iteration the live list equals the snapshot |
| Dispatch.PassEnd | PyListenerTool/__init__.py:41-61 | when no handler escaped, after the last iteration the live list, the calls and the absence of an escape are those `Fired`, `CallTrace` and `Escaping` specify |
| Dispatch.PassEscape | PyListenerTool/__init__.py:41-56 | when record i is the first whose handler escapes, the live list keeps the deletions of records 0 .. i and the rest of the snapshot, the calls end with record i's invocation, and its exception escapes |
| Dispatch.Fired | PyListenerTool/__init__.py:39-56 | the registry after a pass has the same keys, the event's list becomes the survivors of the records visited followed by the records not reached, every other entry is unchanged |
| Dispatch.Reach | PyListenerTool/__init__.py:41-56 | the pass visits a non-empty prefix of a non-empty list; no visited record but the last escapes, and it stops early only at an escaping record |
| Dispatch.ReachAt | PyListenerTool/__init__.py:41-56 | a pass whose first escaping record is i visits exactly i + 1 records |
| Dispatch.ReachAll | PyListenerTool/__init__.py:41-56 | a pass in which no handler escapes visits every record |
| Dispatch.PassWithoutEscape | PyListenerTool/__init__.py:38-61 | when no handler escapes, the event's list becomes exactly its survivors, the calls are the `DispatchTrace` of the whole list, and nothing escapes |
| Dispatch.CallInvokesReached | PyListenerTool/__init__.py:41-56 | the handlers invoked by `_call` are exactly those of the records visited, in order, and all of them when none escapes |
| Dispatch.Survivors | PyListenerTool/__init__.py:42-44 | a pass never lengthens the list |
| Dispatch.SurvivorsMembership | PyListenerTool/__init__.py:42-44 | a record remains after the pass if and only if it was registered and is not `once` |
| Dispatch.SurvivorsAppend | PyListenerTool/__init__.py:41-44 | the deletions act record by record: survivors of a concatenation are the survivors of each part, order kept |
| Dispatch.SurvivorsIdempotent | PyListenerTool/__init__.py:42-44 | a second pass deletes nothing more |
| Dispatch.DispatchTraceAppend | PyListenerTool/__init__.py:41-61 | the calls of a pass over a concatenation are the calls over each part in order |
| Dispatch.InvocationsAppend | PyListenerTool/__init__.py:46-61 | dropping error-callback calls distributes over concatenation |
| Dispatch.DispatchInvokesEach | PyListenerTool/__init__.py:41-55 | each record of the list given, `once` ones included, is invoked exactly once, in registration order, whatever `Exception` its handler raises |
| Dispatch.DispatchTrace | PyListenerTool/__init__.py:41-61 | the calls of a pass over a non-empty list start with the invocation of its first record |
| Dispatch.Step | PyListenerTool/__init__.py:46-61 | a turn first invokes the handler; `on_error` is called, with the raised error, if and only if the handler raised an `Exception` and `on_error` is set; nothing else is called |
| Dispatch.StepInvokesOnce | PyListenerTool/__init__.py:46-55 | one record's turn invokes its handler once |
| Dispatch.CallsLast | PyListenerTool/__init__.py:41 | the reference invocations of a list are those of its prefix followed by the last record's |
| Dispatch.RaiseUnknown | PyListenerTool/__init__.py:39 | `_call` of an event with no entry changes nothing and calls nothing |
| Dispatch.RaiseTwice | PyListenerTool/__init__.py:38-55 | when no handler escapes, a second `_call` invokes exactly the non-`once` records and changes the registry no further |
| Dispatch.OnceExample | PyListenerTool/__init__.py:41-55 | for records a, once b, c: the first pass calls a, b, c and keeps a, c; the second calls a, c |
| Dispatch.EscapeExample | PyListenerTool/__init__.py:41-56 | for records a, once b raising `KeyboardInterrupt`, once c: the first pass calls a, b, deletes b, keeps c unvisited and lets the interrupt escape; a second pass deletes c as well |
| Registry.DecoratorDropsOnError | PyListenerTool/__init__.py:244-255 | as written, a decorated handler that raises is invoked but its `on_error` is never called; with `on_error` forwarded it is |
| Registry.Listener.Decorate | PyListenerTool/__init__.py:251-253 | the decorator registers the function with `is_async` and `once` but no `on_error`, and returns the function unchanged |
| Registry.Listener.DecorateForwarding | PyListenerTool/__init__.py:244-255 | corrected decorator: registers the function with the `on_error` given to `on`, returns it unchanged |
| Registry.Listener.AddListenerDoc | PyListenerTool/__init__.py:65-66 | the event's documentation is set, overwriting any earlier one; the registry is unchanged |
| DocStore.Put | PyListenerTool/__init__.py:66 | dict assignment: the map gains or overwrites the entry and the insertion order stays a duplicate-free list of exactly the keys |
| DocStore.PutExisting | PyListenerTool/__init__.py:66 | re-documenting an event keeps its position and the event count |
| DocStore.PutNew | PyListenerTool/__init__.py:66 | documenting a new event appends it last and raises the count by one |
| DocStore.PutPut | PyListenerTool/__init__.py:66 | of two annotations of one event only the last is kept |
| DocStore.CountIsDistinctEvents | PyListenerTool/__init__.py:231 | `len(self._listener_docs)` is the number of distinct documented events |
| DocStore.DistinctCard | PyListenerTool/__init__.py:231 | a duplicate-free key order has as many entries as there are keys |
| Registry.Listener.BuildListenerDocs | PyListenerTool/__init__.py:236-240 | the object's document is the Markdown or HTML document of its store, by `model`, and building changes nothing |
| Registry.BuildTwice | PyListenerTool/__init__.py:236-240 | building the document twice gives the same text |
| Render.BuildListenerDocs | PyListenerTool/__init__.py:236-240 | `model` "markdown" or "md" gives the Markdown document, any other value the HTML one |
| Render.ListenerDocs | PyListenerTool/__init__.py:236-240 | the document starts with `#` if and only if Markdown was asked for, and with `<` if and only if not |
| Render.MarkdownDoc | PyListenerTool/__init__.py:211-234 | the Markdown document starts with its `# ` title |
| Render.HtmlDoc | PyListenerTool/__init__.py:70-209 | the HTML document starts with its `<!--` comment |
| Render.HtmlHeadOpens | PyListenerTool/__init__.py:108 | the HTML head starts with `<!--` |
| Render.BuildMarkdown | PyListenerTool/__init__.py:211-234 | the builder's loop produces exactly the specified Markdown document: title, blocks in insertion order, footer |
| Render.BuildMdParams | PyListenerTool/__init__.py:214-220 | the parameter text is the numbered lines, or the placeholder when there are none |
| Render.MdParamLineShape | PyListenerTool/__init__.py:216-217 | a parameter line carries a decimal number at its fixed position and ends with `<br>` |
| Render.MdParamLineAt | PyListenerTool/__init__.py:215-217 | parameter j's line, numbered j + 1, lies in the parameter text right after the lines of parameters 0 .. j-1 |
| Render.MdParamsLast | PyListenerTool/__init__.py:214-220 | the parameter text is never empty and ends with `>` or `*` |
| Render.MdPlaceholderIff | PyListenerTool/__init__.py:219-220 | the Markdown placeholder is the parameter text if and only if the event has no parameters |
| Render.MdSectionDivider | PyListenerTool/__init__.py:227-230 | a Markdown block ends with the divider if and only if its event is not the last |
| Render.MdSectionAt | PyListenerTool/__init__.py:213-230 | block i lies in the body right after the blocks of events 0 .. i-1 |
| Render.MdNoEvents | PyListenerTool/__init__.py:231-234 | with nothing documented the Markdown document is the title reporting 0 events followed by the footer |
| Render.BuildHtml | PyListenerTool/__init__.py:70-209 | the builder's loop produces exactly the specified HTML document: head, blocks in insertion order, footer |
| Render.BuildHtmlParams | PyListenerTool/__init__.py:73-89 | the parameter text is the numbered entries, or the `NULL` placeholder when there are none |
| Render.HtmlParamLineShape | PyListenerTool/__init__.py:75-81 | an entry carries a decimal number right after the opening of its comment |
| Render.HtmlParamLineAt | PyListenerTool/__init__.py:74-81 | parameter j's entry, numbered j + 1, lies in the parameter text right after the entries of parameters 0 .. j-1 |
| Render.HtmlParamsNonEmpty | PyListenerTool/__init__.py:74-83 | with at least one parameter the entries are not empty, so the placeholder is not used |
| Render.HtmlPlaceholderIff | PyListenerTool/__init__.py:83-89 | the HTML placeholder is the parameter text if and only if the event has no parameters |
| Render.HtmlSectionDivider | PyListenerTool/__init__.py:103-107 | an HTML block ends with the divider if and only if its event is not the last |
| Render.HtmlSectionAt | PyListenerTool/__init__.py:72-107 | block i lies in the container right after the blocks of events 0 .. i-1 |
| Render.HtmlNoEvents | PyListenerTool/__init__.py:108-209 | with nothing documented the HTML document is the head, whose title reports "0" events, followed by the footer |
| Render.TitleCountsEvents | PyListenerTool/__init__.py:108-231 | both titles report the number of distinct documented events |
| Decimal.NatToString | PyListenerTool/__init__.py:76-78 | the decimal text of a number is non-empty, all digits, and has no leading zero unless it is "0" |
| Decimal.ParseNatToString | PyListenerTool/__init__.py:216-217 | reading the printed number back gives the number |
| Decimal.NatToStringInjective | PyListenerTool/__init__.py:216-217 | different numbers print differently, so parameter numbers are distinct |
| Extractor.ExtractListeners | PyListenerTool/__init__.py:262-291 | a parse failure gives no events and the error; otherwise the queue walk with its loop gives exactly the deduplicated matches of the breadth-first walk, and no error |
| Extractor.ExtractFindsExactly | PyListenerTool/__init__.py:273-286 | a literal is reported if and only if some node of the tree is a matching call whose first argument is that constant |
| Extractor.WalkVisitsEachNodeOnce | PyListenerTool/__init__.py:273 | the breadth-first walk visits every node of the tree exactly once (same multiset as a preorder listing) |
| Extractor.WalkVisitsForest | PyListenerTool/__init__.py:273 | the walk from a queue visits exactly the nodes of the queued subtrees |
| Extractor.ForestAppend | PyListenerTool/__init__.py:273 | the nodes of a queue split over concatenation |
| Extractor.QueueSizeAppend | PyListenerTool/__init__.py:273 | the node count of a queue splits over concatenation |
| Extractor.WalkProgress | PyListenerTool/__init__.py:273 | after `popleft()` and `extend` of the head's children the queue holds exactly one node fewer, so the walk ends |
| Extractor.Walk | PyListenerTool/__init__.py:273 | the walk lists as many nodes as the queued subtrees hold, starting with the head of the queue |
| Extractor.Children | PyListenerTool/__init__.py:273 | every child of a node is smaller than the node |
| Extractor.EventOf | PyListenerTool/__init__.py:274-284 | a node yields an event only if it is a call of `self._call` or `self._addListenerDoc` whose first argument is that constant |
| Extractor.Dedup | PyListenerTool/__init__.py:285-286 | deduplication never lengthens the list and keeps its first element first |
| Extractor.MatchesMembership | PyListenerTool/__init__.py:274-284 | a literal is matched if and only if some visited node is a matching call with it as constant first argument |
| Extractor.MatchesAppend | PyListenerTool/__init__.py:273-284 | matching distributes over the visiting order |
| Extractor.CollectStep | PyListenerTool/__init__.py:283-286 | visiting one more node appends its constant if it matches and is new, and otherwise leaves the events as they are |
| Extractor.DedupDistinct | PyListenerTool/__init__.py:285-286 | the reported events contain no repeats |
| Extractor.DedupMembership | PyListenerTool/__init__.py:285-286 | a literal is reported if and only if it was matched |
| Extractor.DedupFirstOccurrence | PyListenerTool/__init__.py:285-286 | reported events keep the order of their first matches |
| Extractor.TwoCallsExample | PyListenerTool/__init__.py:273-286 | two sibling calls `self._call(a)`, `self._call(b)` report `[a, b]` |
| Extractor.ConnectedExample | PyListenerTool/__init__.py:273-286 | `self._call("connected")` then `self._call("disconnected")` reports both names in that order |
| Extractor.BreadthFirstOrder | PyListenerTool/__init__.py:273-286 | a call one level deeper is reported after a shallower one written later: the order is breadth-first |
| Extractor.NestedWalk | PyListenerTool/__init__.py:273 | the walk of a two-level tree lists the nodes level by level |

## Left out

- Threads and `asyncio`: an asynchronous record's turn is the attempt to start its thread. What the coroutine later does, and whether it raises or escapes, is not modelled.
- The lambda given to the thread reads `func_info` when the thread runs, not when it is created, so a thread can run a later record's handler. The model has each thread run its own record's handler.
- What a handler does is fixed by its `Outcome`. Handlers cannot reach the registry, so reentrant `_call` or `addListener` from inside a handler (which would change the live list during the pass) is not modelled.
- The arguments `*args, **kwargs` passed to handlers are not modelled; they do not affect the registry or the order of calls.
- What `on_error` itself does is not modelled. Its own exceptions are swallowed by the source and leave no trace.
- Default arguments (`is_async=False`, `once=False`, `on_error=None` in `addListener` and `on`, `model="html"` in `buildListenerDocs`): the model's members take every argument explicitly.
- Dispatch.RaiseTwice: stated only for passes in which no handler escapes; when one does, the records not reached are still in the list and a second `_call` can delete more, as `EscapeExample` shows.
- `original_init` and the patching of the class's attributes are not modelled: `Listener` is an ordinary class whose constructor starts both dicts empty.
- `str()` of non-string descriptions and parameters: `desc` and the `cpd` entries are strings.
- The fixed CSS of the HTML head is abbreviated in `HtmlStyle`. The HTML document's structure around the events is kept; the style text is not.
- `inspect.getsource`, `textwrap.dedent` and `ast.parse` are not part of this model. `ExtractListeners` receives their result: the tree, or the error's text.
- Syntax-tree nodes other than calls, attributes, names and constants, `keyword` nodes included, are one `Other` kind with its children. Fields that do not matter to the match are folded away, such as `ctx` and line numbers.
- The error branch around the walk (lines 287-289) cannot be reached in the model, because the walk and the match do not raise. Extraction results carry `None` where the source leaves `error` as `""`.
- Extractor.Dedup: literals are compared structurally. In Python `1 == True` and `0 == False`, so `self._call(1)` followed by `self._call(True)` reports one event there and two here.
- Extractor.Literal: floats, bytes and other constant kinds are not modelled. Only strings, integers, booleans and `None` are.

## Findings

| source | as written | input that shows it | evidently intended | confidence | as-written member | corrected member |
|---|---|---|---|---|---|---|
| PyListenerTool/__init__.py:252 | the decorator returned by `on` calls `addListener(event_name, func, is_async, once)` and drops the `on_error` that `on` accepts | `on("e", on_error=h)` applied to a handler that raises, then `_call("e")`: `h` is never called | pass `on_error` on to `addListener`, as the parameter's presence indicates | medium, not executed | Registry.DecoratorDropsOnError | Registry.Listener.DecorateForwarding |
