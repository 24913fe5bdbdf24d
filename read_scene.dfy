/** The scene reader of the text front end (kirin-txt/main.go): `readScene`
    turns one scene's tokens into a chain of pages "page-0", "page-1", ...,
    and `testNovel` builds a two-scene novel with it. The lexer is not part
    of this model: its output is taken as a finite sequence of tokens. */
module KirinTxt {
  import opened StoryGraph
  import opened ReadThrough

  /** The kind of a token: a line of page text, or any other kind. */
  datatype TokenName = Line | Unrecognized(kind: string)

  datatype Token = Token(name: TokenName, args: seq<string>)

  /** Why a scene could not be read: it held no line at all. */
  datatype ReadError = EmptyScene

  datatype Result<+T> = Success(value: T) | Failure(error: ReadError)

  /** `strings.Join(parts, "")`: the parts one after another, with nothing
      between them. */
  function Concat(parts: seq<string>): (r: string)
    ensures |parts| == 1 ==> r == parts[0]
    ensures r == "" <==> forall i | 0 <= i < |parts| :: parts[i] == ""
  {
    if parts == [] then "" else Concat(parts[..|parts| - 1]) + parts[|parts| - 1]
  }

  /** Joining two runs of parts is joining each run and appending. */
  lemma {:induction false} ConcatAppend(a: seq<string>, b: seq<string>)
    ensures Concat(a + b) == Concat(a) + Concat(b)
    decreases |b|
  {
    if b != [] {
      assert (a + b)[..|a + b| - 1] == a + b[..|b| - 1];
      ConcatAppend(a, b[..|b| - 1]);
    } else {
      assert a + b == a;
    }
  }

  // ---------------------------------------------------------------------
  // Page identifiers: fmt.Sprintf("page-%d", i)
  // ---------------------------------------------------------------------

  function Digit(d: nat): char
    requires d < 10
  {
    ('0' as int + d) as char
  }

  /** The decimal numeral of `n`, most significant digit first, no leading zero. */
  function Decimal(n: nat): (s: string)
    ensures |s| >= 1
    ensures n >= 10 ==> |s| >= 2
  {
    if n < 10 then [Digit(n)] else Decimal(n / 10) + [Digit(n % 10)]
  }

  /** A numeral is made of digits only, and a numeral of more than one digit
      does not start with zero, as the `%d` verb writes it. */
  lemma {:induction false} DecimalDigits(n: nat)
    ensures forall k | 0 <= k < |Decimal(n)| :: '0' <= Decimal(n)[k] <= '9'
    ensures |Decimal(n)| > 1 ==> Decimal(n)[0] != '0'
  {
    if n >= 10 {
      DecimalDigits(n / 10);
      if n / 10 < 10 {
        assert Decimal(n)[0] == Digit(n / 10);
      }
    }
  }

  /** The value of a decimal numeral: the inverse of `Decimal`. */
  function DecimalValue(s: string): nat
  {
    if s == [] then 0
    else
      var d := s[|s| - 1] as int - '0' as int;
      10 * DecimalValue(s[..|s| - 1]) + if 0 <= d then d else 0
  }

  /** Reading back a numeral gives the number it was written from. */
  lemma {:induction false} DecimalRoundTrip(n: nat)
    ensures DecimalValue(Decimal(n)) == n
  {
    if n >= 10 {
      var s := Decimal(n);
      assert s[..|s| - 1] == Decimal(n / 10);
      DecimalRoundTrip(n / 10);
    }
  }

  const PagePrefix: string := "page-"

  /** The id of the `i`-th page of a scene. */
  function PageId(i: nat): (pageId: string)
    ensures |pageId| > |PagePrefix|
  {
    PagePrefix + Decimal(i)
  }

  /** A page id is "page-" and then a decimal numeral: digits only, with no
      leading zero. */
  lemma PageIdFormat(i: nat)
    ensures PageId(i)[..|PagePrefix|] == PagePrefix
    ensures forall k | |PagePrefix| <= k < |PageId(i)| :: '0' <= PageId(i)[k] <= '9'
    ensures |PageId(i)| > |PagePrefix| + 1 ==> PageId(i)[|PagePrefix|] != '0'
  {
    assert PageId(i)[|PagePrefix|..] == Decimal(i);
    DecimalDigits(i);
  }

  /** The position a page id names: the inverse of `PageId`. */
  function PageIndex(pageId: string): nat
  {
    if |pageId| < |PagePrefix| then 0 else DecimalValue(pageId[|PagePrefix|..])
  }

  /** Page ids read back to their positions. */
  lemma PageIdRoundTrip(i: nat)
    ensures PageIndex(PageId(i)) == i
  {
    assert PageId(i)[|PagePrefix|..] == Decimal(i);
    DecimalRoundTrip(i);
  }

  /** Distinct positions get distinct ids. */
  lemma PageIdInjective(i: nat, j: nat)
    ensures PageId(i) == PageId(j) <==> i == j
  {
    PageIdRoundTrip(i);
    PageIdRoundTrip(j);
  }

  lemma AllPageIdsRoundTrip()
    ensures forall i: nat :: PageIndex(PageId(i)) == i
  {
    forall i: nat
      ensures PageIndex(PageId(i)) == i
    {
      PageIdRoundTrip(i);
    }
  }

  /** The literal first-page id the reader stores is the id of page 0. */
  const FirstPageId: string := "page-0"

  lemma FirstPageIdIsPageZero()
    ensures PageId(0) == FirstPageId
  {
    assert Decimal(0) == "0";
  }

  // ---------------------------------------------------------------------
  // The specification of readScene
  // ---------------------------------------------------------------------

  /** One page text per Line token, in source order; other tokens are skipped. */
  function LineTexts(tokens: seq<Token>): (texts: seq<string>)
    ensures |texts| <= |tokens|
  {
    if tokens == [] then []
    else
      var last := tokens[|tokens| - 1];
      LineTexts(tokens[..|tokens| - 1]) + if last.name == Line then [Concat(last.args)] else []
  }

  /** The positions of the Line tokens. */
  function LinePositions(tokens: seq<Token>): set<nat>
  {
    set p: nat | p < |tokens| && tokens[p].name == Line
  }

  /** The id at position `k` of a chain of `n` pages, "" past its end. */
  function ChainLink(k: nat, n: nat): string
  {
    if k < n then PageId(k) else ""
  }

  function PageIds(lo: nat, hi: nat): set<string>
  {
    set k: nat | lo <= k < hi :: PageId(k)
  }

  /** Pages `lo`.. of the chain over `texts`: page k has id PageId(k), the
      k-th text, and links to page k+1, the last one to "". */
  function ChainFrom(texts: seq<string>, lo: nat): (pages: map<string, Page>)
    ensures pages.Keys == PageIds(lo, |texts|)
    ensures forall k: nat {:trigger pages[PageId(k)]} | lo <= k < |texts| ::
              pages[PageId(k)] == SimplePage(PageId(k), texts[k], ChainLink(k + 1, |texts|))
  {
    AllPageIdsRoundTrip();
    map pageId | pageId in PageIds(lo, |texts|) :: ChainPage(texts, PageIndex(pageId))
  }

  /** Page `k` of the chain over `texts`. */
  function ChainPage(texts: seq<string>, k: nat): Page
  {
    SimplePage(PageId(k), if k < |texts| then texts[k] else "", ChainLink(k + 1, |texts|))
  }

  /** The scene `readScene(id, next, ...)` builds from `tokens`, or EmptyScene. */
  function SceneOf(id: string, next: string, tokens: seq<Token>): (r: Result<Scene>)
    ensures r.Failure? ==> r.error == EmptyScene
    ensures r.Success? ==> r.value.ID() == id && r.value.FirstPage() == FirstPageId
    ensures r.Success? ==> r.value.next == next && r.value.GetPage(FirstPageId).Some?
  {
    var texts := LineTexts(tokens);
    if |texts| == 0 then Failure(EmptyScene)
    else
      FirstPageIdIsPageZero();
      Success(SimpleScene(id, FirstPageId, ChainFrom(texts, 0), next))
  }

  // ---------------------------------------------------------------------
  // readScene itself
  // ---------------------------------------------------------------------

  /** The ids of positions `lo`.. are that of `lo` and those of `lo + 1`.. */
  lemma PageIdsStep(lo: nat, hi: nat)
    requires lo < hi
    ensures PageIds(lo, hi) == PageIds(lo + 1, hi) + {PageId(lo)}
  {
    forall key | key in PageIds(lo, hi)
      ensures key in PageIds(lo + 1, hi) + {PageId(lo)}
    {
      var k: nat :| lo <= k < hi && key == PageId(k);
      if k > lo {
        assert key in PageIds(lo + 1, hi);
      }
    }
  }

  /** Adding page `lo` in front of pages `lo + 1`.. gives pages `lo`.. */
  lemma ChainStep(texts: seq<string>, lo: nat)
    requires lo < |texts|
    ensures ChainFrom(texts, lo + 1)[PageId(lo) := SimplePage(PageId(lo), texts[lo], ChainLink(lo + 1, |texts|))]
            == ChainFrom(texts, lo)
  {
    var page := SimplePage(PageId(lo), texts[lo], ChainLink(lo + 1, |texts|));
    var rest := ChainFrom(texts, lo + 1);
    var whole := ChainFrom(texts, lo);
    PageIdRoundTrip(lo);
    assert page == ChainPage(texts, PageIndex(PageId(lo)));
    PageIdsStep(lo, |texts|);
    forall key | key in whole
      ensures rest[PageId(lo) := page][key] == whole[key]
    {
      if key != PageId(lo) {
        assert key in rest;
        assert rest[key] == ChainPage(texts, PageIndex(key));
      }
    }
  }

  /** The scene reader: collects one page text per Line token (logging and
      skipping the rest), fails on a scene without lines, then links the
      pages from the last to the first, each to the one after it. */
  method ReadScene(id: string, next: string, tokens: seq<Token>) returns (r: Result<Scene>)
    ensures r == SceneOf(id, next, tokens)
  {
    var pageList: seq<string> := [];
    for k := 0 to |tokens|
      invariant pageList == LineTexts(tokens[..k])
    {
      assert tokens[..k + 1][..k] == tokens[..k];
      match tokens[k].name
      case Line =>
        pageList := pageList + [Concat(tokens[k].args)];
      case Unrecognized(_) =>
    }
    assert tokens[..|tokens|] == tokens;
    assert pageList == LineTexts(tokens);
    if |pageList| == 0 {
      return Failure(EmptyScene);
    }
    var pages: map<string, Page> := map[];
    var prevId := "";
    var i := |pageList| - 1;
    while i >= 0
      invariant -1 <= i < |pageList|
      invariant pages == ChainFrom(pageList, i + 1)
      invariant prevId == ChainLink(i + 1, |pageList|)
    {
      var pageId := PageId(i);
      ChainStep(pageList, i);
      pages := pages[pageId := SimplePage(pageId, pageList[i], prevId)];
      prevId := pageId;
      i := i - 1;
    }
    assert pages == ChainFrom(pageList, 0);
    r := Success(SimpleScene(id, FirstPageId, pages, next));
  }

  // ---------------------------------------------------------------------
  // What readScene promises
  // ---------------------------------------------------------------------

  /** There are no page texts exactly when there is no Line token. */
  lemma {:induction false} LineTextsEmpty(tokens: seq<Token>)
    ensures LineTexts(tokens) == [] <==> forall p | 0 <= p < |tokens| :: tokens[p].name != Line
  {
    if tokens != [] {
      var init := tokens[..|tokens| - 1];
      LineTextsEmpty(init);
      assert forall p | 0 <= p < |init| :: init[p] == tokens[p];
    }
  }

  /** readScene fails, and then with EmptyScene, exactly when no token is a Line. */
  lemma ReadSceneFailsIffNoLine(id: string, next: string, tokens: seq<Token>)
    ensures SceneOf(id, next, tokens).Failure? <==> forall p | 0 <= p < |tokens| :: tokens[p].name != Line
    ensures SceneOf(id, next, tokens).Failure? ==> SceneOf(id, next, tokens) == Failure(EmptyScene)
  {
    LineTextsEmpty(tokens);
  }

  /** There are as many page texts as Line tokens. */
  lemma {:induction false} LineTextsCount(tokens: seq<Token>)
    ensures |LineTexts(tokens)| == |LinePositions(tokens)|
  {
    if tokens != [] {
      var n := |tokens|;
      var init := tokens[..n - 1];
      var isLine := tokens[n - 1].name == Line;
      assert |LineTexts(tokens)| == |LineTexts(init)| + if isLine then 1 else 0;
      LineTextsCount(init);
      var before := LinePositions(init);
      var extra: set<nat> := if isLine then {n - 1} else {};
      assert LinePositions(tokens) == before + extra by {
        forall p: nat | p in LinePositions(tokens)
          ensures p in before + extra
        {
          if p < n - 1 {
            assert init[p] == tokens[p];
          }
        }
        forall p: nat | p in before
          ensures p in LinePositions(tokens)
        {
          assert init[p] == tokens[p];
        }
      }
      assert before !! extra;
    }
  }

  /** `hi - lo` positions give `hi - lo` distinct ids. */
  lemma {:induction false} PageIdsCount(lo: nat, hi: nat)
    requires lo <= hi
    ensures |PageIds(lo, hi)| == hi - lo
    decreases hi - lo
  {
    if lo == hi {
      assert PageIds(lo, hi) == {};
    } else {
      PageIdsStep(lo, hi);
      PageIdsCount(lo + 1, hi);
      if PageId(lo) in PageIds(lo + 1, hi) {
        var k: nat :| lo + 1 <= k < hi && PageId(lo) == PageId(k);
        PageIdInjective(lo, k);
      }
    }
  }

  /** The scene has one page per Line token. */
  lemma ReadScenePageCount(id: string, next: string, tokens: seq<Token>)
    requires SceneOf(id, next, tokens).Success?
    ensures |SceneOf(id, next, tokens).value.pages| == |LinePositions(tokens)|
  {
    LineTextsCount(tokens);
    PageIdsCount(0, |LineTexts(tokens)|);
  }

  /** The page keys are PageId(0) .. PageId(n - 1), and each page's own id is its key. */
  lemma ReadScenePageIds(id: string, next: string, tokens: seq<Token>)
    requires SceneOf(id, next, tokens).Success?
    ensures SceneOf(id, next, tokens).value.pages.Keys == PageIds(0, |LineTexts(tokens)|)
    ensures forall key | key in SceneOf(id, next, tokens).value.pages ::
              SceneOf(id, next, tokens).value.pages[key].ID() == key
  {
    var pages := SceneOf(id, next, tokens).value.pages;
    forall key | key in pages
      ensures pages[key].ID() == key
    {
      var k: nat :| k < |LineTexts(tokens)| && key == PageId(k);
    }
  }

  /** Page k links to page k + 1, and the last page links to "". */
  lemma ReadSceneLinks(id: string, next: string, tokens: seq<Token>)
    requires SceneOf(id, next, tokens).Success?
    ensures var pages, n := SceneOf(id, next, tokens).value.pages, |LineTexts(tokens)|;
            && (forall k: nat {:trigger pages[PageId(k)]} | k + 1 < n :: pages[PageId(k)].NextPage() == PageId(k + 1))
            && pages[PageId(n - 1)].NextPage() == ""
  {
    var texts := LineTexts(tokens);
    var pages := ChainFrom(texts, 0);
    ChainLinkedInOrder(texts);
    assert pages[PageId(|texts| - 1)].NextPage() == ChainLink(|texts|, |texts|);
  }

  /** The page texts of a prefix of the tokens are a prefix of the page texts. */
  lemma {:induction false} LineTextsPrefix(tokens: seq<Token>, k: nat)
    requires k <= |tokens|
    ensures LineTexts(tokens[..k]) <= LineTexts(tokens)
  {
    if k < |tokens| {
      var init := tokens[..|tokens| - 1];
      assert init[..k] == tokens[..k];
      LineTextsPrefix(init, k);
    } else {
      assert tokens[..k] == tokens;
    }
  }

  /** The Line token at `p` gives the i-th page text, i being the number of
      Line tokens before it. */
  lemma PageOfLineToken(tokens: seq<Token>, p: nat)
    requires p < |tokens| && tokens[p].name == Line
    ensures |LineTexts(tokens[..p])| < |LineTexts(tokens)|
    ensures LineTexts(tokens)[|LineTexts(tokens[..p])|] == Concat(tokens[p].args)
  {
    assert tokens[..p + 1][..p] == tokens[..p];
    LineTextsPrefix(tokens, p + 1);
  }

  /** Every page text comes from a Line token, the i-th page text from the
      Line token with i Line tokens before it. */
  lemma {:induction false} LineTokenOfPage(tokens: seq<Token>, i: nat) returns (p: nat)
    requires i < |LineTexts(tokens)|
    ensures p < |tokens| && tokens[p].name == Line
    ensures |LineTexts(tokens[..p])| == i
    ensures LineTexts(tokens)[i] == Concat(tokens[p].args)
  {
    var n := |tokens|;
    var init := tokens[..n - 1];
    if i < |LineTexts(init)| {
      p := LineTokenOfPage(init, i);
      assert init[..p] == tokens[..p];
    } else {
      p := n - 1;
    }
  }

  /** The page of the Line token at `p` holds that token's joined arguments. */
  lemma ReadScenePageText(id: string, next: string, tokens: seq<Token>, p: nat)
    requires p < |tokens| && tokens[p].name == Line
    ensures SceneOf(id, next, tokens).Success?
    ensures var i := |LineTexts(tokens[..p])|;
            SceneOf(id, next, tokens).value.GetPage(PageId(i)) == Some(SimplePage(PageId(i), Concat(tokens[p].args), ChainLink(i + 1, |LineTexts(tokens)|)))
  {
    PageOfLineToken(tokens, p);
  }

  /** The ids read when following next-page links from `from`, for at most
      `steps` links, stopping at an id that is not a page. */
  function Walk(pages: map<string, Page>, from: string, steps: nat): seq<string>
    decreases steps
  {
    if steps == 0 || from !in pages then [] else [from] + Walk(pages, pages[from].NextPage(), steps - 1)
  }

  /** The id reached by that walk. */
  function Reach(pages: map<string, Page>, from: string, steps: nat): string
    decreases steps
  {
    if steps == 0 || from !in pages then from else Reach(pages, pages[from].NextPage(), steps - 1)
  }

  /** `pages` holds a chain of `n` pages linked in order, and no page has the empty id. */
  ghost predicate LinkedInOrder(pages: map<string, Page>, n: nat)
  {
    && "" !in pages
    && (forall j: nat | j < n :: PageId(j) in pages)
    && (forall j: nat {:trigger pages[PageId(j)]} | j < n ::
          PageId(j) in pages && pages[PageId(j)].NextPage() == ChainLink(j + 1, n))
  }

  lemma ChainLinkedInOrder(texts: seq<string>)
    ensures LinkedInOrder(ChainFrom(texts, 0), |texts|)
  {
    forall j: nat | j < |texts|
      ensures PageId(j) in ChainFrom(texts, 0)
    {
      assert PageId(j) in PageIds(0, |texts|);
    }
  }

  /** The ids of positions `j` .. `n - 1`, in order. */
  function ChainIds(j: nat, n: nat): seq<string>
    decreases n - j
  {
    if j >= n then [] else [PageId(j)] + ChainIds(j + 1, n)
  }

  lemma {:induction false} ChainIdsAt(j: nat, n: nat)
    requires j <= n
    ensures |ChainIds(j, n)| == n - j
    ensures forall k | 0 <= k < n - j :: ChainIds(j, n)[k] == PageId(j + k)
    decreases n - j
  {
    if j < n {
      ChainIdsAt(j + 1, n);
      var rest := ChainIds(j + 1, n);
      forall k | 0 <= k < n - j
        ensures ChainIds(j, n)[k] == PageId(j + k)
      {
        if k > 0 {
          assert ChainIds(j, n)[k] == rest[k - 1];
        }
      }
    }
  }

  /** From position `j` of such a chain, the walk reads pages j .. n - 1 and reaches "". */
  lemma {:induction false} ChainWalkFrom(pages: map<string, Page>, n: nat, j: nat, steps: nat)
    requires LinkedInOrder(pages, n)
    requires j <= n && steps >= n - j
    ensures Walk(pages, ChainLink(j, n), steps) == ChainIds(j, n)
    ensures Reach(pages, ChainLink(j, n), steps) == ""
    decreases n - j
  {
    if j < n {
      var here := ChainLink(j, n);
      assert here == PageId(j) && here in pages && steps > 0;
      var there := pages[here].NextPage();
      assert there == ChainLink(j + 1, n);
      ChainWalkFrom(pages, n, j + 1, steps - 1);
      assert Walk(pages, here, steps) == [here] + Walk(pages, there, steps - 1);
      assert Reach(pages, here, steps) == Reach(pages, there, steps - 1);
    }
  }

  /** The ids of a chain, listed in order, are all different and are all the chain's ids. */
  lemma ChainIdsDistinct(n: nat)
    ensures |ChainIds(0, n)| == n
    ensures forall k | 0 <= k < n :: ChainIds(0, n)[k] == PageId(k)
    ensures forall a, b | 0 <= a < b < n :: ChainIds(0, n)[a] != ChainIds(0, n)[b]
    ensures forall key | key in PageIds(0, n) :: key in ChainIds(0, n)
  {
    var ids := ChainIds(0, n);
    ChainIdsAt(0, n);
    forall a, b | 0 <= a < b < n
      ensures ids[a] != ids[b]
    {
      PageIdInjective(a, b);
    }
    forall key | key in PageIds(0, n)
      ensures key in ids
    {
      var k: nat :| k < n && key == PageId(k);
      assert ids[k] == key;
    }
  }

  /** In a chain of `n` pages keyed PageId(0) .. PageId(n - 1), the walk
      from the first page reads each page once, in order, and reaches "". */
  lemma ChainWalk(pages: map<string, Page>, n: nat, steps: nat)
    requires LinkedInOrder(pages, n) && pages.Keys == PageIds(0, n)
    requires 0 < n <= steps
    ensures var w := Walk(pages, PageId(0), steps);
            && |w| == |pages|
            && (forall k | 0 <= k < |w| :: w[k] == PageId(k))
            && (forall a, b | 0 <= a < b < |w| :: w[a] != w[b])
            && (forall key | key in pages :: key in w)
            && Reach(pages, PageId(0), steps) == ""
  {
    assert Walk(pages, PageId(0), steps) == ChainIds(0, n) && Reach(pages, PageId(0), steps) == "" by {
      ChainWalkFrom(pages, n, 0, steps);
    }
    assert |pages| == n by {
      PageIdsCount(0, n);
    }
    ChainIdsDistinct(n);
  }

  /** Following next-page links from "page-0" reads every page once, in
      order, and reaches "" after as many links as there are pages. */
  lemma ReadSceneWalk(id: string, next: string, tokens: seq<Token>, steps: nat)
    requires SceneOf(id, next, tokens).Success?
    requires steps >= |LineTexts(tokens)|
    ensures var pages := SceneOf(id, next, tokens).value.pages;
            var w := Walk(pages, FirstPageId, steps);
            && |w| == |pages|
            && (forall k | 0 <= k < |w| :: w[k] == PageId(k))
            && (forall a, b | 0 <= a < b < |w| :: w[a] != w[b])
            && (forall key | key in pages :: key in w)
            && Reach(pages, FirstPageId, steps) == ""
            && "" !in pages
  {
    var texts := LineTexts(tokens);
    FirstPageIdIsPageZero();
    ChainLinkedInOrder(texts);
    ChainWalk(ChainFrom(texts, 0), |texts|, steps);
  }

  /** The Line tokens alone, in order. */
  function LinesOnly(tokens: seq<Token>): (lines: seq<Token>)
    ensures forall t | t in lines :: t.name == Line
    ensures |lines| <= |tokens|
    ensures |lines| == |LineTexts(tokens)|
  {
    if tokens == [] then []
    else
      var last := tokens[|tokens| - 1];
      LinesOnly(tokens[..|tokens| - 1]) + if last.name == Line then [last] else []
  }

  /** The Line tokens of a prefix of the input are a prefix of its Line tokens. */
  lemma {:induction false} LinesOnlyPrefix(tokens: seq<Token>, k: nat)
    requires k <= |tokens|
    ensures LinesOnly(tokens[..k]) <= LinesOnly(tokens)
  {
    if k < |tokens| {
      var init := tokens[..|tokens| - 1];
      assert init[..k] == tokens[..k];
      LinesOnlyPrefix(init, k);
    } else {
      assert tokens[..k] == tokens;
    }
  }

  /** The Line token at `p` is kept, as the i-th kept token, i being the
      number of Line tokens before it. */
  lemma LinesOnlyKeepsLine(tokens: seq<Token>, p: nat)
    requires p < |tokens| && tokens[p].name == Line
    ensures |LinesOnly(tokens[..p])| < |LinesOnly(tokens)|
    ensures LinesOnly(tokens)[|LinesOnly(tokens[..p])|] == tokens[p]
  {
    assert tokens[..p + 1][..p] == tokens[..p];
    LinesOnlyPrefix(tokens, p + 1);
  }

  /** Every kept token is a Line token of the input: the i-th one is the Line
      token with i Line tokens before it. */
  lemma {:induction false} LinesOnlyFromLine(tokens: seq<Token>, i: nat) returns (p: nat)
    requires i < |LinesOnly(tokens)|
    ensures p < |tokens| && tokens[p].name == Line
    ensures |LinesOnly(tokens[..p])| == i
    ensures LinesOnly(tokens)[i] == tokens[p]
  {
    var n := |tokens|;
    var init := tokens[..n - 1];
    if i < |LinesOnly(init)| {
      p := LinesOnlyFromLine(init, i);
      assert init[..p] == tokens[..p];
    } else {
      p := n - 1;
    }
  }

  lemma {:induction false} LinesOnlyTexts(tokens: seq<Token>)
    ensures LineTexts(LinesOnly(tokens)) == LineTexts(tokens)
  {
    if tokens != [] {
      var init := tokens[..|tokens| - 1];
      var last := tokens[|tokens| - 1];
      LinesOnlyTexts(init);
      if last.name == Line {
        var lines := LinesOnly(init) + [last];
        assert LinesOnly(tokens) == lines;
        assert lines[..|lines| - 1] == LinesOnly(init);
        assert LineTexts(lines) == LineTexts(LinesOnly(init)) + [Concat(last.args)];
      } else {
        assert LinesOnly(tokens) == LinesOnly(init);
      }
    }
  }

  /** Dropping every token that is not a Line leaves the scene unchanged. */
  lemma ReadSceneIgnoresUnrecognized(id: string, next: string, tokens: seq<Token>)
    ensures SceneOf(id, next, LinesOnly(tokens)) == SceneOf(id, next, tokens)
  {
    LinesOnlyTexts(tokens);
  }

  // ---------------------------------------------------------------------
  // The demo novel
  // ---------------------------------------------------------------------

  /** The tokens of the two demo scenes, taking the lexer to yield one Line
      token per line of text, with the line (without its newline) as the
      only argument. */
  const SceneOneTokens: seq<Token> := [
    Token(Line, ["This is the first page of the VN."]),
    Token(Line, ["This is the second and last page of the first scene."])
  ]

  const SceneTwoTokens: seq<Token> := [
    Token(Line, ["This is the only page of the second scene."])
  ]

  lemma TwoLineTexts(a: string, b: string)
    ensures LineTexts([Token(Line, [a]), Token(Line, [b])]) == [a, b]
  {
    var tokens := [Token(Line, [a]), Token(Line, [b])];
    assert Concat([a]) == a by {
      assert [a][..0] == [];
    }
    assert Concat([b]) == b by {
      assert [b][..0] == [];
    }
    assert tokens[..1] == [Token(Line, [a])];
    assert tokens[..1][..0] == [];
  }

  /** Past the last position, the chain has no pages. */
  lemma ChainFromEnd(texts: seq<string>)
    ensures ChainFrom(texts, |texts|) == map[]
  {
    assert PageIds(|texts|, |texts|) == {};
  }

  lemma TwoPageChainIds(a: string, b: string)
    ensures ChainFrom([a, b], 0) == map[
              PageId(1) := SimplePage(PageId(1), b, ""),
              PageId(0) := SimplePage(PageId(0), a, PageId(1))
            ]
  {
    var texts := [a, b];
    assert ChainFrom(texts, 1) == map[PageId(1) := SimplePage(PageId(1), b, "")] by {
      ChainFromEnd(texts);
      ChainStep(texts, 1);
    }
    ChainStep(texts, 0);
  }


  lemma TwoPageChain(a: string, b: string)
    ensures ChainFrom([a, b], 0) == map[
              "page-0" := SimplePage("page-0", a, "page-1"),
              "page-1" := SimplePage("page-1", b, "")
            ]
  {
    TwoPageChainIds(a, b);
    FirstPageIdIsPageZero();
    assert PageId(1) == "page-1" by {
      assert Decimal(1) == "1";
    }
  }



  /** A scene of two one-argument lines reads as two linked pages. */
  lemma TwoLineScene(id: string, next: string, a: string, b: string)
    ensures SceneOf(id, next, [Token(Line, [a]), Token(Line, [b])]) == Success(SimpleScene(id, "page-0", map[
              "page-0" := SimplePage("page-0", a, "page-1"),
              "page-1" := SimplePage("page-1", b, "")
            ], next))
  {
    TwoLineTexts(a, b);
    TwoPageChain(a, b);
  }

  /** A scene of one one-argument line reads as a single last page. */
  lemma OneLineScene(id: string, next: string, a: string)
    ensures SceneOf(id, next, [Token(Line, [a])]) == Success(SimpleScene(id, "page-0", map[
              "page-0" := SimplePage("page-0", a, "")
            ], next))
  {
    var tokens := [Token(Line, [a])];
    assert Concat([a]) == a by {
      assert [a][..0] == [];
    }
    assert tokens[..0] == [];
    assert LineTexts(tokens) == [a];
    FirstPageIdIsPageZero();
    assert PageIds(0, 1) == {"page-0"} by {
      PageIdsStep(0, 1);
      assert PageIds(1, 1) == {};
    }
    var pages := ChainFrom([a], 0);
    assert pages["page-0"] == SimplePage("page-0", a, "");
    assert pages == map["page-0" := SimplePage("page-0", a, "")];
  }

  /** The demo novel: two scenes read from text, the first leading to the second. */
  method TestNovel() returns (novel: Novel)
    ensures novel.name == "Test Novel" && novel.firstScene == "first-scene"
    ensures novel.scenes == map[
      "first-scene" := SimpleScene("first-scene", "page-0", map[
        "page-0" := SimplePage("page-0", "This is the first page of the VN.", "page-1"),
        "page-1" := SimplePage("page-1", "This is the second and last page of the first scene.", "")
      ], "second-scene"),
      "second-scene" := SimpleScene("second-scene", "page-0", map[
        "page-0" := SimplePage("page-0", "This is the only page of the second scene.", "")
      ], "")
    ]
  {
    var first := ReadScene("first-scene", "second-scene", SceneOneTokens);
    var second := ReadScene("second-scene", "", SceneTwoTokens);
    TwoLineScene("first-scene", "second-scene", "This is the first page of the VN.",
                 "This is the second and last page of the first scene.");
    OneLineScene("second-scene", "", "This is the only page of the second scene.");
    novel := Novel("Test Novel", "first-scene", map["first-scene" := first.value, "second-scene" := second.value]);
  }

  /** What the demo's main loop reads on its first pass: the novel's name,
      the text of the page the engine starts on, and whether that is an
      ending. As AtEnding always answers true, the loop stops there. */
  method FirstScreen() returns (title: string, text: string, ending: bool)
    ensures title == "Test Novel"
    ensures text == "This is the first page of the VN."
    ensures ending
  {
    var novel := TestNovel();
    var engine := new Engine.New(novel);
    title := engine.Name();
    var page := engine.CurrentPage();
    text := page.value.Text();
    ending := engine.AtEnding();
  }
}
