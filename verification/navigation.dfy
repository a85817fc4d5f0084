/** The two scroll handlers of the navigation: the navbar's `scrolled` class
    and the highlighting of the link of the section under the viewport top. */
module Navigation {
  import opened Wrappers

  /** The navbar carries `scrolled` past this many pixels of scrolling. */
  const ScrolledThreshold := 50.0

  /** How far below the viewport top the highlighter looks for a section. */
  const LookAhead := 100.0

  /** The `.custom-navbar` element and its `scrolled` class. */
  class Navbar {
    var scrolled: bool

    constructor (scrolled: bool)
      ensures this.scrolled == scrolled
    {
      this.scrolled := scrolled;
    }

    /** The navbar scroll handler: add `scrolled` past the threshold, remove
        it otherwise, whatever it was before. */
    method OnScroll(scrollTop: real)
      modifies this
      ensures scrolled <==> scrollTop > ScrolledThreshold
    {
      if scrollTop > ScrolledThreshold {
        scrolled := true;
      } else {
        scrolled := false;
      }
    }
  }

  /** A `section[id]` of the page: its id, its document offset and its outer height. */
  datatype Section = Section(id: string, top: real, height: real)

  /** The half-open band `[top, top + height)` of a section holds `pos`. */
  predicate Covers(s: Section, pos: real) {
    s.top <= pos < s.top + s.height
  }

  /** The index of the last section, in document order, whose band holds `pos`. */
  function LastCovering(sections: seq<Section>, pos: real): (r: Option<nat>)
    ensures r == None <==> forall k :: 0 <= k < |sections| ==> !Covers(sections[k], pos)
    ensures r.Some? ==>
      && r.value < |sections|
      && Covers(sections[r.value], pos)
      && forall k :: r.value < k < |sections| ==> !Covers(sections[k], pos)
  {
    if sections == [] then None
    else if Covers(sections[|sections| - 1], pos) then Some(|sections| - 1)
    else LastCovering(sections[..|sections| - 1], pos)
  }

  /** The anchor a link must target to be highlighted for section `id`. */
  function Anchor(id: string): string {
    "#" + id
  }

  /** Flags of the links after the handler has highlighted section `id`. */
  function Highlighted(hrefs: seq<string>, id: string): (active: seq<bool>)
    ensures |active| == |hrefs|
    ensures forall k :: 0 <= k < |hrefs| ==> (active[k] <==> hrefs[k] == Anchor(id))
  {
    seq(|hrefs|, k requires 0 <= k < |hrefs| => hrefs[k] == Anchor(id))
  }

  /** The flags a scroll to `scrollTop` leaves on the links: those of the last
      covering section, or the old flags when no section covers the position. */
  function AfterScroll(active: seq<bool>, hrefs: seq<string>, sections: seq<Section>, scrollTop: real): (r: seq<bool>)
    ensures (forall k :: 0 <= k < |sections| ==> !Covers(sections[k], scrollTop + LookAhead)) ==> r == active
    ensures forall j :: 0 <= j < |sections| ==>
      (Covers(sections[j], scrollTop + LookAhead)
       && (forall k :: j < k < |sections| ==> !Covers(sections[k], scrollTop + LookAhead))
       ==> r == Highlighted(hrefs, sections[j].id))
  {
    match LastCovering(sections, scrollTop + LookAhead)
    case None => active
    case Some(k) => Highlighted(hrefs, sections[k].id)
  }

  /** Taking one more section into account: it wins when it covers the
      position, and otherwise the earlier sections decide. */
  lemma AfterScrollStep(active: seq<bool>, hrefs: seq<string>, sections: seq<Section>, scrollTop: real, i: nat)
    requires i < |sections|
    ensures AfterScroll(active, hrefs, sections[..i + 1], scrollTop) ==
      if Covers(sections[i], scrollTop + LookAhead) then Highlighted(hrefs, sections[i].id)
      else AfterScroll(active, hrefs, sections[..i], scrollTop)
  {
    assert sections[..i + 1][..i] == sections[..i];
  }

  /** Scrolling to the same position again changes no link. */
  lemma AfterScrollIdempotent(active: seq<bool>, hrefs: seq<string>, sections: seq<Section>, scrollTop: real)
    ensures var once := AfterScroll(active, hrefs, sections, scrollTop);
      AfterScroll(once, hrefs, sections, scrollTop) == once
  {
  }

  /** Three stacked sections: scrolling so that the look-ahead point falls
      inside the second one highlights exactly the link to it. */
  lemma ThreeSectionScenario(active: seq<bool>)
    ensures var sections := [Section("home", 0.0, 600.0), Section("about", 600.0, 800.0), Section("contact", 1400.0, 600.0)];
      AfterScroll(active, ["#home", "#about", "#contact"], sections, 650.0) == [false, true, false]
  {
    var sections := [Section("home", 0.0, 600.0), Section("about", 600.0, 800.0), Section("contact", 1400.0, 600.0)];
    assert LastCovering(sections, 750.0) == Some(1);
    assert Anchor("about") == "#about";
    assert "#home" != "#about" && "#contact" != "#about";
  }

  /** The `.nav-link` elements: their `href` attributes and their `active` classes. */
  class NavMenu {
    const hrefs: seq<string>
    const active: array<bool>

    predicate Valid() {
      active.Length == |hrefs|
    }

    constructor (hrefs: seq<string>, active: seq<bool>)
      requires |active| == |hrefs|
      ensures Valid() && this.hrefs == hrefs && this.active[..] == active && fresh(this.active)
    {
      this.hrefs := hrefs;
      this.active := new bool[|hrefs|](k requires 0 <= k < |hrefs| reads {} => active[k]);
    }

    /** `$('.nav-link').removeClass('active')`. */
    method ClearAll()
      requires Valid()
      modifies active
      ensures forall k :: 0 <= k < active.Length ==> !active[k]
    {
      for k := 0 to active.Length
        invariant forall j :: 0 <= j < k ==> !active[j]
      {
        active[k] := false;
      }
    }

    /** `$('.nav-link[href="#id"]').addClass('active')`: the other links keep their class. */
    method Mark(id: string)
      requires Valid()
      modifies active
      ensures forall k :: 0 <= k < active.Length ==>
        active[k] == (old(active[k]) || hrefs[k] == Anchor(id))
    {
      for k := 0 to active.Length
        invariant forall j :: 0 <= j < k ==> active[j] == (old(active[j]) || hrefs[j] == Anchor(id))
        invariant forall j :: k <= j < active.Length ==> active[j] == old(active[j])
      {
        if hrefs[k] == Anchor(id) {
          active[k] := true;
        }
      }
    }

    /** The highlighting scroll handler: every section whose band holds
        `scrollTop + 100` clears all links and marks its own, so the last such
        section wins; when none does, no link changes. */
    method OnScroll(scrollTop: real, sections: seq<Section>)
      requires Valid()
      modifies active
      ensures active[..] == AfterScroll(old(active[..]), hrefs, sections, scrollTop)
    {
      var scrollPos := scrollTop + LookAhead;
      for i := 0 to |sections|
        invariant active[..] == AfterScroll(old(active[..]), hrefs, sections[..i], scrollTop)
      {
        AfterScrollStep(old(active[..]), hrefs, sections, scrollTop, i);
        var section := sections[i];
        if section.top <= scrollPos && scrollPos < section.top + section.height {
          ClearAll();
          Mark(section.id);
          assert active[..] == Highlighted(hrefs, section.id);
        }
      }
      assert sections[..|sections|] == sections;
    }
  }
}
