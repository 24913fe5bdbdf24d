# kirin-vn engine: story graph, scene reader and read-through cursor

A Dafny model of the core of the kirin-vn visual-novel engine (Go). The files
of package `engine` modelled here are novel.go and engine.go. The model gives
each of them its own module, `StoryGraph` and `ReadThrough`. The name
`ReadThrough` comes from the doc comment of the `Engine` type (engine.go:3),
which calls the engine "the workhorse for a read-through of a Novel".

- `story_graph.dfy`, module `StoryGraph` (novel.go): a `Novel` holds a name,
  the id of its first scene and its scenes by id. A `Scene` holds an id, the id
  of its first page and its pages by id. A `Page` holds an id, its text and the
  id of the next page, "" for the last one. `Scene` and `Page` are Go interfaces
  with one implementation each (`simpleScene`, `simplePage`), so each is a
  single-variant datatype here. Its constructor has the name of the Go
  constructor function. The getters are member functions. `GetPage` gives an
  `Option`, with `None` for the nil page the Go map lookup gives for a missing id.
- `engine.dfy`, module `ReadThrough` (engine.go): the `Engine` class is the
  read-through cursor. It holds the novel plus the ids of the current scene and
  page. `New` places it on the first scene's first page. `Name`, `CurrentPage`
  and `AtEnding` only read: they have no `modifies` clause, so they change
  neither the cursor nor the novel. `AtEnding` is the constant `true`, as in
  the code.
- `read_scene.dfy`, module `KirinTxt` (kirin-txt/main.go): `readScene` as the
  method `ReadScene`. Its first loop keeps one text per `Line` token, joining
  the token's arguments. Its second loop walks the texts backwards and links
  page `"page-i"` to `"page-(i+1)"`, and the last page to `""`. The method is
  proved equal to the declarative `SceneOf`. The lemmas beside it state what
  the scene is: the failure case, the page count, the ids, the texts in
  token order, the links, and the walk along the links. `PageId(i)` models
  `fmt.Sprintf("page-%d", i)`. Its inverse `PageIndex` is proved, which makes
  it injective. `TestNovel` models `testNovel`, and `FirstScreen` models what
  `main` reads on its first pass.

The lexer is an external package. Its output is taken as a finite
`seq<Token>`, where a token has a name (`Line` or anything else) and string
arguments. The `panic` on a scene without lines becomes the result
`Failure(EmptyScene)`.

`SimpleScene` in novel.go:31 takes three arguments (id, first page, pages).
Its one call in the modelled files, kirin-txt/main.go:66, passes four: the
fourth is the id of the next scene. As written, these files do not compile
together. The model gives the scene datatype a fourth field `next` so the call
can be modelled. No getter reads that field, and the model gives it no meaning
beyond being stored.

Three facts about the code bound the model. `AtEnding` returns the constant
`true`, marked TODO (engine.go:34). `main` calls `GoToNextPage`
(kirin-txt/main.go:24), but no such function is defined in engine.go. The
modelled files contain no function that checks the references between scenes
and pages, and none that parses a scene into a novel. So the model has a
constant `AtEnding`, no advance operation and no validator.

## Model

| member | source | states |
|---|---|---|
| StoryGraph.Scene.GetPage | novel.go:47-49 | the lookup finds a page exactly when the id is a key of the scene's pages, and then gives that page; otherwise it gives None (the nil Page) |
| StoryGraph.SimplePageGetters | novel.go:67-85 | `ID`, `Text` and `NextPage` of `SimplePage(id, text, next)` give back `id`, `text` and `next` |
| StoryGraph.SimpleSceneGetters | novel.go:31-49 | `ID` and `FirstPage` give back what the scene was built with, with no check that the first page is a key; `GetPage` gives the stored page for a key and None for any other id |
| ReadThrough.Engine.New | engine.go:14-20 | given a novel whose first scene exists, the cursor holds that novel and is on its first scene, at that scene's `FirstPage()` |
| ReadThrough.Engine.Name | engine.go:23-25 | gives the novel's name and changes nothing |
| ReadThrough.Engine.CurrentPage | engine.go:28-30 | gives the page of the current scene with the current page id if there is one, None otherwise; changes nothing |
| ReadThrough.Engine.AtEnding | engine.go:33-35 | answers true in every state and changes nothing |
| KirinTxt.ReadScene | kirin-txt/main.go:45-67 | the scene the two loops build is exactly `SceneOf(id, next, tokens)`, and EmptyScene when there is no line |
| KirinTxt.SceneOf | kirin-txt/main.go:56-66 | failure is EmptyScene; a built scene has the given id and next-scene id, and its first page is `"page-0"`, which is one of its pages |
| KirinTxt.LineTexts | kirin-txt/main.go:47-55 | one text per Line token, in token order, so never more texts than tokens |
| KirinTxt.ChainFrom | kirin-txt/main.go:59-65 | the page map has exactly the keys `PageId(k)` for the chain positions; page k has id `PageId(k)`, the k-th text, and links to page k+1, the last page to "" |
| KirinTxt.Concat | kirin-txt/main.go:51 | `strings.Join(args, "")`: a single part is returned as it is, and the joined text is empty exactly when every part is empty |
| KirinTxt.ConcatAppend | kirin-txt/main.go:51 | joining a run of parts cut in two is joining each half and appending the results, so the parts are laid end to end with no separator |
| KirinTxt.Decimal | kirin-txt/main.go:62 | the `%d` numeral of n has at least one digit, and at least two once n >= 10 |
| KirinTxt.DecimalDigits | kirin-txt/main.go:62 | the `%d` numeral is made of digits only, and one of more than one digit does not start with zero |
| KirinTxt.PageId | kirin-txt/main.go:62 | `fmt.Sprintf("page-%d", i)` is always longer than the prefix "page-": a number follows it |
| KirinTxt.PageIdFormat | kirin-txt/main.go:62 | the id is "page-" followed by a decimal numeral with no leading zero |
| KirinTxt.FirstPageIdIsPageZero | kirin-txt/main.go:62-66 | the literal first-page id "page-0" that the scene stores is the id the second loop gives position 0 |
| KirinTxt.DecimalRoundTrip | kirin-txt/main.go:62 | reading back the decimal numeral of n gives n |
| KirinTxt.PageIdRoundTrip | kirin-txt/main.go:62 | the page id of position i reads back to i |
| KirinTxt.PageIdInjective | kirin-txt/main.go:62 | two positions have the same page id if and only if they are equal |
| KirinTxt.PageIdsCount | kirin-txt/main.go:61-63 | n positions give n distinct page ids |
| KirinTxt.LineTextsEmpty | kirin-txt/main.go:48-58 | there is no page text if and only if no token is a Line |
| KirinTxt.ReadSceneFailsIffNoLine | kirin-txt/main.go:56-58 | reading fails if and only if no token is a Line, and the failure is then EmptyScene |
| KirinTxt.LineTextsCount | kirin-txt/main.go:48-51 | there are as many page texts as Line tokens |
| KirinTxt.ReadScenePageCount | kirin-txt/main.go:48-65 | a built scene has as many pages as the input has Line tokens |
| KirinTxt.ReadScenePageIds | kirin-txt/main.go:61-63 | the page keys are `PageId(0)` .. `PageId(n-1)`, and each page's `ID()` is its key |
| KirinTxt.ReadSceneLinks | kirin-txt/main.go:60-64 | page `PageId(k)` links to `PageId(k+1)` for k < n-1, and the last page links to "" |
| KirinTxt.LineTextsPrefix | kirin-txt/main.go:48-51 | the texts of a prefix of the tokens are a prefix of all the texts, because pages are only appended |
| KirinTxt.PageOfLineToken | kirin-txt/main.go:48-51 | the Line token at position p gives text number i, where i is the number of Line tokens before p, and that text is the token's joined arguments |
| KirinTxt.LineTokenOfPage | kirin-txt/main.go:48-51 | every page text i comes from a Line token that has exactly i Line tokens before it, and is that token's joined arguments |
| KirinTxt.ReadScenePageText | kirin-txt/main.go:51-63 | for the Line token at position p, the built scene has page `PageId(i)`, where i is the number of Line tokens before p; its text is the token's joined arguments |
| KirinTxt.ChainLinkedInOrder | kirin-txt/main.go:59-65 | every chain position has a page linking to the next position, and no page has the empty id |
| KirinTxt.ChainWalkFrom | kirin-txt/main.go:60-64 | from position j, following the links reads pages j .. n-1 in order and then reaches "" |
| KirinTxt.ChainWalk | kirin-txt/main.go:60-66 | from the first page, following the links reads every page once, in order, and reaches "" |
| KirinTxt.ReadSceneWalk | kirin-txt/main.go:60-66 | in a built scene, following the links from `"page-0"` for at least n steps reads every page exactly once, in order, and ends at "", which is not a page |
| KirinTxt.LinesOnly | kirin-txt/main.go:49-54 | keeps only Line tokens: never more tokens than the input, and exactly as many as there are page texts |
| KirinTxt.LinesOnlyPrefix | kirin-txt/main.go:49-54 | the Line tokens of a prefix of the input are a prefix of its Line tokens |
| KirinTxt.LinesOnlyKeepsLine | kirin-txt/main.go:49-54 | the input's Line token at position p is kept, unchanged, as kept token number i, where i is the number of Line tokens before p |
| KirinTxt.LinesOnlyFromLine | kirin-txt/main.go:49-54 | kept token number i is the input's Line token that has exactly i Line tokens before it, so nothing is kept that is not one of the input's Line tokens, in their order |
| KirinTxt.LinesOnlyTexts | kirin-txt/main.go:49-54 | dropping the non-Line tokens leaves the page texts unchanged |
| KirinTxt.ReadSceneIgnoresUnrecognized | kirin-txt/main.go:52-53 | dropping every non-Line token gives the same scene, or the same failure |
| KirinTxt.TwoLineScene | kirin-txt/main.go:45-67 | two one-argument lines give pages "page-0" -> "page-1" -> "" with those texts, first page "page-0" |
| KirinTxt.OneLineScene | kirin-txt/main.go:45-67 | one one-argument line gives the single page "page-0", linking to "" |
| KirinTxt.TestNovel | kirin-txt/main.go:34-43 | the demo novel is "Test Novel"; it starts at "first-scene", and the exact scenes and pages are listed |
| KirinTxt.FirstScreen | kirin-txt/main.go:13-19 | on the demo novel, the engine's name is "Test Novel" and the first page's text is the first line of scene one; `AtEnding` is already true, so main's loop stops after that page |

## Left out

- Printing, waiting on standard input with `fmt.Scanln` and the rest of `main`'s loop (kirin-txt/main.go:12-26) are I/O. `FirstScreen` covers only the values main reads before its loop stops.
- `GoToNextPage`, which `main` calls, is not defined in engine.go. The model has no page or scene advance.
- The lexer (`lexer.Tokenize`) is an external package that is not part of this model. Its line splitting is not modelled. `TestNovel` assumes it yields one Line token per line, with the line's text as the only argument.
- The `log.Printf` diagnostic for tokens of other kinds (kirin-txt/main.go:53) has no effect on the result and is left out.
- `readScene`'s `panic` is modelled as the result `Failure(EmptyScene)`. Unwinding through the caller (`testNovel`) is not modelled.
- ReadThrough.Engine.New: the nil-interface dereference on a missing first scene is excluded by a precondition, not modelled as a crash.
- ReadThrough.Engine.CurrentPage: requires that the current scene exists. `New` establishes this and no method changes the fields. A missing scene in Go would be a nil-interface dereference.
- Go maps of interface values can hold nil under a present key. The model's page and scene maps hold no nil values: `GetPage` is `Some` for every present key, and a present scene is never nil (engine.go:18, engine.go:29). `readScene` never stores a nil page.
- The engine holds `*Novel`, a pointer. Here it holds the novel as a value, so changes made to the novel through other aliases of the pointer are not modelled. The same holds for the page map that `SimpleScene` stores by reference.
- Go's `int` loop index and page numbers are modelled as unbounded integers. A scene would need more than 2^63 lines to overflow.
- The scene's `next` field exists only because of the arity mismatch described above. No next-scene getter exists in novel.go, and none is modelled.
