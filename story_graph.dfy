/** The script of a visual novel (novel.go): a Novel owns its Scenes, each
    Scene owns its Pages, and links between them are identifiers resolved
    through the owning map. Scene and Page are Go interfaces in novel.go with
    exactly one implementation each, so each is one datatype variant here.
    Every getter is a function on a value, so no getter can change the scene
    or page it is called on. */
module StoryGraph {

  /** A value or its absence; `None` stands for the nil `Page` interface. */
  datatype Option<+T> = None | Some(value: T)

  /** One displayable page: `simplePage`, built by `SimplePage(id, text, next)`.
      `next` is the id of the following page of the scene, "" for the last. */
  datatype Page = SimplePage(id: string, text: string, next: string)
  {
    function ID(): string { id }

    function Text(): string { text }

    function NextPage(): string { next }
  }

  /** A run of pages: `simpleScene`, built by `SimpleScene`.
      The `next` field (the id of the following scene) is NOT part of
      `simpleScene` in novel.go:24-37: `SimpleScene` takes three arguments, yet
      its one caller in the scene reader passes a fourth, the next scene's id. The
      field is kept so that call can be modelled; no getter reads it, and
      nothing here gives it a meaning. */
  datatype Scene = SimpleScene(id: string, firstPage: string, pages: map<string, Page>, next: string)
  {
    function ID(): string { id }

    function FirstPage(): string { firstPage }

    /** A map lookup that yields nil when the key is absent. */
    function GetPage(pageId: string): (pg: Option<Page>)
      ensures pg.Some? <==> pageId in pages
      ensures pg.Some? ==> pg.value == pages[pageId]
    {
      if pageId in pages then Some(pages[pageId]) else None
    }
  }

  /** The whole story: its name, the id of the scene it starts with and the
      scenes by id. Nothing ties `firstScene` to a key of `scenes`. */
  datatype Novel = Novel(name: string, firstScene: string, scenes: map<string, Scene>)

  /** The page getters give back exactly what the page was built from. */
  lemma SimplePageGetters(id: string, text: string, next: string)
    ensures SimplePage(id, text, next).ID() == id
    ensures SimplePage(id, text, next).Text() == text
    ensures SimplePage(id, text, next).NextPage() == next
  {
  }

  /** The scene getters give back what the scene was built from; the first
      page is stored as given, whether or not it is a key of `pages`. */
  lemma SimpleSceneGetters(id: string, firstPage: string, pages: map<string, Page>, next: string, key: string)
    ensures SimpleScene(id, firstPage, pages, next).ID() == id
    ensures SimpleScene(id, firstPage, pages, next).FirstPage() == firstPage
    ensures key in pages ==> SimpleScene(id, firstPage, pages, next).GetPage(key) == Some(pages[key])
    ensures key !in pages ==> SimpleScene(id, firstPage, pages, next).GetPage(key) == None
  {
  }
}
