/** The read-through cursor of engine.go: a novel plus the ids of the scene
    and page being read. */
module ReadThrough {
  import opened StoryGraph

  class Engine {
    var novel: Novel
    var scene: string
    var page: string

    /** The cursor's scene exists, so `CurrentPage` has a scene to ask.
        `New` establishes it and no method changes the fields. */
    ghost predicate Valid()
      reads this
    {
      scene in novel.scenes
    }

    /** Starts at the novel's first scene and that scene's first page. The
        Go code (engine.go:18) dereferences the first scene without a check,
        so it must exist. */
    constructor New(novel: Novel)
      requires novel.firstScene in novel.scenes
      ensures Valid()
      ensures this.novel == novel
      ensures scene == novel.firstScene
      ensures page == novel.scenes[novel.firstScene].FirstPage()
    {
      this.novel := novel;
      scene := novel.firstScene;
      page := novel.scenes[novel.firstScene].FirstPage();
    }

    /** The novel's name; reads the cursor and changes nothing. */
    method Name() returns (name: string)
      ensures name == novel.name
    {
      name := novel.name;
    }

    /** The page under the cursor, or None when the current scene has no page
        with the current id; reads the cursor and changes nothing. */
    method CurrentPage() returns (pg: Option<Page>)
      requires Valid()
      ensures pg.Some? <==> page in novel.scenes[scene].pages
      ensures pg.Some? ==> pg.value == novel.scenes[scene].pages[page]
    {
      pg := novel.scenes[scene].GetPage(page);
    }

    /** A placeholder: every state counts as an ending, whatever the current
        page and scene link to. Changes nothing. */
    method AtEnding() returns (ending: bool)
      ensures ending
    {
      ending := true;
    }
  }
}
