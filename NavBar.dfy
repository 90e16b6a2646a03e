/** The decision logic of the animated navigation bar: which entry is active
    after a scroll, what a click asks the browser to do, and the small state
    changes made by resize and hover events. The DOM is abstracted away:
    sections arrive as a sequence of measurements and the elements that
    `document.getElementById` can find arrive as a map from id to offsetTop. */
module NavBar {

  datatype Option<T> = None | Some(value: T) {
    function GetOr(default: T): T {
      match this
      case Some(v) => v
      case None => default
    }
  }

  /** A navigation entry. The icon glyph is presentation only and not modelled. */
  datatype NavItem = NavItem(name: string, url: string)

  /** A `section[id]` element as measured: its id attribute, offsetTop and offsetHeight. */
  datatype Section = Section(id: string, top: int, height: int)

  /** What a click asks of the browser besides making the entry active. */
  datatype ClickEffect =
    | ScrollTo(top: int)     // smooth scroll of the window to this offset
    | Stay                   // an anchor whose element does not exist: nothing happens
    | Navigate(url: string)  // a full navigation through window.location

  /** The name used when the caller gives no `defaultActive`. */
  const DefaultActiveName: string := "Home"
  /** Viewports narrower than this are classified as mobile. */
  const MobileBreakpoint: int := 768
  /** Added to scrollY so that the section under the fixed bar is the one tracked. */
  const ScrollLookahead: int := 100
  /** Room left above a scrolled-to section for the fixed bar. */
  const ScrollTargetOffset: int := 80

  /** `url.startsWith('#')`. */
  predicate IsAnchor(url: string) {
    |url| > 0 && url[0] == '#'
  }

  /** `items.some(item => item.url.startsWith('#'))`: scroll tracking is wanted. */
  function HasHashItems(items: seq<NavItem>): (r: bool)
    ensures r <==> exists k :: 0 <= k < |items| && IsAnchor(items[k].url)
  {
    if items == [] then false
    else if IsAnchor(items[0].url) then true
    else
      var rest := HasHashItems(items[1..]);
      assert rest ==> exists k :: 1 <= k < |items| && IsAnchor(items[k].url) by {
        if rest {
          var k :| 0 <= k < |items[1..]| && IsAnchor(items[1..][k].url);
          assert items[k + 1] == items[1..][k];
        }
      }
      rest
  }

  /** `items.find(item => item.url === url)`, as the index of the item found. */
  function FindItem(items: seq<NavItem>, url: string): (r: Option<nat>)
    ensures r.Some? ==> r.value < |items| && items[r.value].url == url
    ensures r.Some? ==> forall j :: 0 <= j < r.value ==> items[j].url != url
    ensures r.None? <==> forall j :: 0 <= j < |items| ==> items[j].url != url
  {
    if items == [] then None
    else if items[0].url == url then Some(0)
    else
      match FindItem(items[1..], url)
      case None =>
        assert forall j :: 1 <= j < |items| ==> items[j] == items[1..][j - 1];
        None
      case Some(k) => Some(k + 1)
  }

  /** The interval test of the scroll handler: `top <= position < top + height`. */
  predicate InView(s: Section, position: int) {
    position >= s.top && position < s.top + s.height
  }

  /** The name one step of the `forEach` writes into `currentSection`, if any:
      the section must be in view, carry a non-empty id, and some item's url
      must be `"#" + id`; the first such item gives the name. */
  function Proposal(s: Section, position: int, items: seq<NavItem>): (r: Option<string>)
    ensures r.Some? <==>
      InView(s, position) && s.id != "" && exists j :: 0 <= j < |items| && items[j].url == "#" + s.id
    ensures r.Some? ==>
      exists j :: 0 <= j < |items| && items[j].url == "#" + s.id && r.value == items[j].name &&
                  (forall i :: 0 <= i < j ==> items[i].url != "#" + s.id)
  {
    if InView(s, position) && s.id != "" then
      match FindItem(items, "#" + s.id)
      case Some(j) => Some(items[j].name)
      case None => None
    else None
  }

  /** The proposal of the latest section in document order that makes one. */
  function LastProposal(sections: seq<Section>, position: int, items: seq<NavItem>): Option<string>
    decreases |sections|
  {
    if sections == [] then None
    else
      match Proposal(sections[|sections| - 1], position, items)
      case Some(n) => Some(n)
      case None => LastProposal(sections[..|sections| - 1], position, items)
  }

  /** The new `activeTab` after the scroll handler ran with `current` as the old
      one: untouched when the page has no sections; otherwise the latest
      proposal, and `defaultActive` when no section makes one. */
  function ScrollOutcome(current: string, sections: seq<Section>, scrollY: int,
                         items: seq<NavItem>, defaultActive: string): string
  {
    if |sections| == 0 then current
    else LastProposal(sections, scrollY + ScrollLookahead, items).GetOr(defaultActive)
  }

  /** Section k proposes a name and no later section does. */
  predicate IsLatestProposer(sections: seq<Section>, k: nat, position: int, items: seq<NavItem>)
    requires k < |sections|
  {
    Proposal(sections[k], position, items).Some? &&
    forall j :: k < j < |sections| ==> Proposal(sections[j], position, items).None?
  }

  /** LastProposal finds nothing exactly when no section proposes a name. */
  lemma {:induction false} LastProposalNone(sections: seq<Section>, position: int, items: seq<NavItem>)
    ensures LastProposal(sections, position, items).None? <==>
      forall k :: 0 <= k < |sections| ==> Proposal(sections[k], position, items).None?
  {
    if sections != [] {
      var n := |sections| - 1;
      LastProposalNone(sections[..n], position, items);
      assert forall k :: 0 <= k < n ==> sections[..n][k] == sections[k];
    }
  }

  /** The latest proposing section decides. */
  lemma {:induction false} LastProposalLatest(sections: seq<Section>, k: nat, position: int, items: seq<NavItem>)
    requires k < |sections| && IsLatestProposer(sections, k, position, items)
    ensures LastProposal(sections, position, items) == Proposal(sections[k], position, items)
  {
    var n := |sections| - 1;
    if k < n {
      var init := sections[..n];
      assert forall j :: 0 <= j < n ==> init[j] == sections[j];
      assert IsLatestProposer(init, k, position, items);
      LastProposalLatest(init, k, position, items);
    }
  }

  /** When some section proposes a name, one of them is the latest. */
  lemma {:induction false} LatestProposerExists(sections: seq<Section>, i: nat, position: int, items: seq<NavItem>)
    requires i < |sections| && Proposal(sections[i], position, items).Some?
    ensures exists k :: i <= k < |sections| && IsLatestProposer(sections, k, position, items)
    decreases |sections| - i
  {
    if !IsLatestProposer(sections, i, position, items) {
      var j :| i < j < |sections| && Proposal(sections[j], position, items).Some?;
      LatestProposerExists(sections, j, position, items);
    }
  }

  /** What the scroll handler promises: an empty page leaves `activeTab` alone;
      with no proposal it resets to `defaultActive`; otherwise the latest
      proposing section wins; and on a page with sections the result is
      `defaultActive` or the name of some item. */
  lemma ScrollOutcomeCases(current: string, sections: seq<Section>, scrollY: int,
                           items: seq<NavItem>, defaultActive: string)
    ensures |sections| == 0 ==> ScrollOutcome(current, sections, scrollY, items, defaultActive) == current
    ensures |sections| > 0 && (forall k :: 0 <= k < |sections| ==> Proposal(sections[k], scrollY + ScrollLookahead, items).None?)
      ==> ScrollOutcome(current, sections, scrollY, items, defaultActive) == defaultActive
    ensures forall k :: 0 <= k < |sections| && IsLatestProposer(sections, k, scrollY + ScrollLookahead, items) ==>
      ScrollOutcome(current, sections, scrollY, items, defaultActive) == Proposal(sections[k], scrollY + ScrollLookahead, items).value
    ensures |sections| > 0 ==>
      var r := ScrollOutcome(current, sections, scrollY, items, defaultActive);
      r == defaultActive || exists j :: 0 <= j < |items| && r == items[j].name
  {
    var position := scrollY + ScrollLookahead;
    LastProposalNone(sections, position, items);
    forall k | 0 <= k < |sections| && IsLatestProposer(sections, k, position, items)
      ensures LastProposal(sections, position, items) == Proposal(sections[k], position, items)
    {
      LastProposalLatest(sections, k, position, items);
    }
    if LastProposal(sections, position, items).Some? {
      var i :| 0 <= i < |sections| && Proposal(sections[i], position, items).Some?;
      LatestProposerExists(sections, i, position, items);
    }
  }

  /** The `forEach` of the scroll handler: every section in view with a matching
      item overwrites `currentSection`, which starts at `defaultActive`. */
  method ScanSections(sections: seq<Section>, scrollPosition: int, items: seq<NavItem>, defaultActive: string)
    returns (currentSection: string)
    ensures currentSection == LastProposal(sections, scrollPosition, items).GetOr(defaultActive)
  {
    currentSection := defaultActive;
    var i := 0;
    while i < |sections|
      invariant 0 <= i <= |sections|
      invariant currentSection == LastProposal(sections[..i], scrollPosition, items).GetOr(defaultActive)
    {
      var section := sections[i];
      if scrollPosition >= section.top && scrollPosition < section.top + section.height {
        var id := section.id;
        if id != "" {
          var matchingItem := FindItem(items, "#" + id);
          if matchingItem.Some? {
            currentSection := items[matchingItem.value].name;
          }
        }
      }
      assert sections[..i + 1][..i] == sections[..i];
      i := i + 1;
    }
    assert sections[..i] == sections;
  }

  /** `s.replace(c, "")` with a one-character string pattern. */
  function RemoveFirst(s: string, c: char): string
  {
    if s == [] then []
    else if s[0] == c then s[1..]
    else [s[0]] + RemoveFirst(s[1..], c)
  }

  /** Only the first occurrence of `c` is removed. */
  lemma {:induction false} RemoveFirstOccurrence(s: string, c: char, k: nat)
    requires k < |s| && s[k] == c && c !in s[..k]
    ensures RemoveFirst(s, c) == s[..k] + s[k + 1..]
  {
    if k > 0 {
      assert s[0] in s[..k];
      assert s[1..][..k - 1] == s[1..k];
      RemoveFirstOccurrence(s[1..], c, k - 1);
      assert s[..k] == [s[0]] + s[1..k];
      assert s[1..][k..] == s[k + 1..];
    }
  }

  /** A string without `c` is left as it is. The click handler never reaches
      this case (it strips only urls that start with `#`); the lemma completes
      the description of `replace` together with RemoveFirstOccurrence. */
  lemma {:induction false} RemoveFirstAbsent(s: string, c: char)
    requires c !in s
    ensures RemoveFirst(s, c) == s
  {
    if s != [] {
      assert s[0] != c && c !in s[1..];
      RemoveFirstAbsent(s[1..], c);
    }
  }

  /** For an anchor url the target id is the url without its leading `#`. */
  lemma AnchorTargetId(url: string)
    requires IsAnchor(url)
    ensures RemoveFirst(url, '#') == url[1..]
  {
    RemoveFirstOccurrence(url, '#', 0);
  }

  /** The browser side of a click on an item with this url. `elements` maps
      the ids `document.getElementById` can find to their offsetTop; the
      empty id is never found. */
  function ClickOutcome(url: string, elements: map<string, int>): (e: ClickEffect)
    ensures IsAnchor(url) && url[1..] != "" && url[1..] in elements ==>
      e == ScrollTo(elements[url[1..]] - ScrollTargetOffset)
    ensures IsAnchor(url) && (url[1..] == "" || url[1..] !in elements) ==> e == Stay
    ensures !IsAnchor(url) ==> e == Navigate(url)
  {
    if IsAnchor(url) then
      var targetId := RemoveFirst(url, '#');
      AnchorTargetId(url);
      if targetId != "" && targetId in elements then ScrollTo(elements[targetId] - ScrollTargetOffset)
      else Stay
    else Navigate(url)
  }

  /** The state of one mounted navigation bar. */
  class AnimeNavBar {
    var items: seq<NavItem>
    var defaultActive: string
    var activeTab: string
    var hoveredTab: Option<string>
    var isMobile: bool
    /** Whether the window scroll listener is registered. */
    var scrollTracking: bool

    /** The scroll listener is registered exactly when some item is an anchor. */
    ghost predicate Valid()
      reads this
    {
      scrollTracking == HasHashItems(items)
    }

    /** Mounting: the initial state, then the resize effect (classify once) and
        the scroll effect (register when wanted, and run the handler once). */
    constructor (items0: seq<NavItem>, defaultActive0: Option<string>, innerWidth: int,
                 sections: seq<Section>, scrollY: int)
      ensures Valid()
      ensures items == items0 && defaultActive == defaultActive0.GetOr(DefaultActiveName)
      ensures hoveredTab == None
      ensures isMobile <==> innerWidth < MobileBreakpoint
      ensures activeTab == if HasHashItems(items0)
        then ScrollOutcome(defaultActive, sections, scrollY, items0, defaultActive)
        else defaultActive
    {
      items := items0;
      defaultActive := defaultActive0.GetOr(DefaultActiveName);
      activeTab := defaultActive0.GetOr(DefaultActiveName);
      hoveredTab := None;
      isMobile := innerWidth < MobileBreakpoint;
      scrollTracking := HasHashItems(items0);
      new;
      if scrollTracking {
        HandleScroll(sections, scrollY);
      }
    }

    /** The resize handler. */
    method HandleResize(innerWidth: int)
      modifies this`isMobile
      ensures isMobile <==> innerWidth < MobileBreakpoint
    {
      isMobile := innerWidth < MobileBreakpoint;
    }

    /** The scroll handler itself, a closure reachable only through the
        registered listener or the effect's initial call. */
    method HandleScroll(sections: seq<Section>, scrollY: int)
      requires scrollTracking
      modifies this`activeTab
      ensures activeTab == ScrollOutcome(old(activeTab), sections, scrollY, items, defaultActive)
    {
      if |sections| == 0 {
        return;
      }
      var scrollPosition := scrollY + ScrollLookahead;
      var currentSection := ScanSections(sections, scrollPosition, items, defaultActive);
      activeTab := currentSection;
    }

    /** A window scroll event: it reaches the handler only while the listener is
        registered, so a bar without anchor items is changed only by clicks. */
    method WindowScrolled(sections: seq<Section>, scrollY: int)
      requires Valid()
      modifies this`activeTab
      ensures !HasHashItems(items) ==> activeTab == old(activeTab)
      ensures HasHashItems(items) ==>
        activeTab == ScrollOutcome(old(activeTab), sections, scrollY, items, defaultActive)
    {
      if scrollTracking {
        HandleScroll(sections, scrollY);
      }
    }

    /** New `items` or `defaultActive` from the parent: the scroll effect is torn
        down and run again; `activeTab` keeps its state (it is not re-initialised). */
    method UpdateProps(items0: seq<NavItem>, defaultActive0: Option<string>,
                       sections: seq<Section>, scrollY: int)
      modifies this`items, this`defaultActive, this`scrollTracking, this`activeTab
      ensures Valid()
      ensures items == items0 && defaultActive == defaultActive0.GetOr(DefaultActiveName)
      ensures activeTab == if HasHashItems(items0)
        then ScrollOutcome(old(activeTab), sections, scrollY, items0, defaultActive)
        else old(activeTab)
    {
      items := items0;
      defaultActive := defaultActive0.GetOr(DefaultActiveName);
      scrollTracking := HasHashItems(items0);
      if scrollTracking {
        HandleScroll(sections, scrollY);
      }
    }

    /** A click on the i-th item: it becomes active whatever the scroll state,
        and the returned effect says what the browser is asked to do. */
    method Click(i: nat, elements: map<string, int>) returns (effect: ClickEffect)
      requires i < |items|
      modifies this`activeTab
      ensures activeTab == items[i].name
      ensures effect == ClickOutcome(items[i].url, elements)
    {
      var item := items[i];
      activeTab := item.name;
      effect := ClickOutcome(item.url, elements);
    }

    /** The pointer enters the i-th item. */
    method MouseEnter(i: nat)
      requires i < |items|
      modifies this`hoveredTab
      ensures hoveredTab == Some(items[i].name)
    {
      hoveredTab := Some(items[i].name);
    }

    /** The pointer leaves an item. */
    method MouseLeave()
      modifies this`hoveredTab
      ensures hoveredTab == None
    {
      hoveredTab := None;
    }

    /** The item is drawn with the active glow. */
    predicate IsActive(item: NavItem)
      reads this
    {
      activeTab == item.name
    }

    /** The item is drawn with the hover highlight, which never falls on the
        active item. */
    function ShowsHover(item: NavItem): (r: bool)
      reads this
      ensures r ==> !IsActive(item)
    {
      hoveredTab == Some(item.name) && activeTab != item.name
    }

    /** When item names are distinct, at most one item is drawn as active. */
    lemma AtMostOneActive(i: nat, j: nat)
      requires i < |items| && j < |items|
      requires forall p, q :: 0 <= p < q < |items| ==> items[p].name != items[q].name
      requires IsActive(items[i]) && IsActive(items[j])
      ensures i == j
    {
    }
  }
}
