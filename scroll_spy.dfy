/** The scroll handler that picks the current section and highlights the
    matching navigation icon (js/main.js:117-133). */
module ScrollSpy {
  import opened Sections

  /** The test of js/main.js:122, `pageYOffset >= offsetTop - clientHeight / 3`,
      in exact arithmetic. */
  predicate Reached(s: Section, y: real)
  {
    y >= s.top as real - s.height as real / 3.0
  }

  /** Index of the last section, in document order, that the offset `y` has
      reached, or -1 when it has reached none. */
  function LastReached(secs: seq<Section>, y: real): (k: int)
    ensures -1 <= k < |secs|
    ensures 0 <= k ==> Reached(secs[k], y)
    ensures forall j :: k < j < |secs| ==> !Reached(secs[j], y)
  {
    if secs == [] then -1
    else if Reached(secs[|secs| - 1], y) then |secs| - 1
    else LastReached(secs[..|secs| - 1], y)
  }

  /** The id the handler leaves in `current`: that of the last reached
      section, or the empty string. */
  function ActiveId(secs: seq<Section>, y: real): string
  {
    var k := LastReached(secs, y);
    if k < 0 then "" else secs[k].id
  }

  /** The indices of the sections the offset `y` has reached. */
  function ReachedSet(secs: seq<Section>, y: real): set<int>
  {
    set i | 0 <= i < |secs| && Reached(secs[i], y)
  }

  /** If no section is reached, `current` stays the empty string. */
  lemma NothingReachedMeansEmpty(secs: seq<Section>, y: real)
    requires forall j :: 0 <= j < |secs| ==> !Reached(secs[j], y)
    ensures LastReached(secs, y) == -1
    ensures ActiveId(secs, y) == ""
  {
  }

  /** A reached section wins exactly when no later section is reached: later
      sections override earlier ones. */
  lemma LastReachedWins(secs: seq<Section>, y: real, i: int)
    requires 0 <= i < |secs| && Reached(secs[i], y)
    ensures LastReached(secs, y) == i <==> forall j :: i < j < |secs| ==> !Reached(secs[j], y)
    ensures (forall j :: i < j < |secs| ==> !Reached(secs[j], y)) ==> ActiveId(secs, y) == secs[i].id
  {
  }

  /** Scrolling further down only adds reached sections. */
  lemma ReachedSetGrows(secs: seq<Section>, y1: real, y2: real)
    requires y1 <= y2
    ensures ReachedSet(secs, y1) <= ReachedSet(secs, y2)
  {
  }

  /** Scrolling further down never moves the chosen section to an earlier one. */
  lemma LastReachedMonotone(secs: seq<Section>, y1: real, y2: real)
    requires y1 <= y2
    ensures LastReached(secs, y1) <= LastReached(secs, y2)
  {
    var k1 := LastReached(secs, y1);
    if 0 <= k1 {
      assert Reached(secs[k1], y2);
    }
  }

  /** The first loop of the handler (js/main.js:118-125): walk the sections in
      order and remember the id of every one the offset has reached. */
  method FindCurrent(secs: seq<Section>, y: real) returns (current: string)
    ensures current == ActiveId(secs, y)
  {
    current := "";
    for i := 0 to |secs|
      invariant current == ActiveId(secs[..i], y)
    {
      assert secs[..i + 1][..i] == secs[..i];
      if Reached(secs[i], y) {
        current := secs[i].id;
      }
    }
    assert secs[..|secs|] == secs;
  }

  /** A `.right-nav a.nav-icon` anchor: its `href` attribute and whether its
      class list holds `active`. */
  class NavIcon {
    var href: string
    var active: bool

    constructor (href: string, active: bool)
      ensures this.href == href && this.active == active
    {
      this.href := href;
      this.active := active;
    }
  }

  /** `href.substring(1)`: the attribute without its first character, and the
      empty string for an empty attribute. */
  function Fragment(href: string): (f: string)
    ensures |href| == 0 ==> f == ""
    ensures |href| > 0 ==> href == [href[0]] + f
  {
    if |href| == 0 then "" else href[1..]
  }

  /** The second loop of the handler (js/main.js:127-132): clear `active` on
      every icon, then set it again on the icons whose fragment is `current`. */
  method UpdateNavIcons(icons: array<NavIcon>, current: string)
    modifies icons[..]
    ensures forall i :: 0 <= i < icons.Length ==> icons[i].active == (Fragment(icons[i].href) == current)
    ensures forall i :: 0 <= i < icons.Length ==> icons[i].href == old(icons[i].href)
  {
    for i := 0 to icons.Length
      invariant forall k :: 0 <= k < i ==> icons[k].active == (Fragment(icons[k].href) == current)
      invariant forall k :: 0 <= k < icons.Length ==> icons[k].href == old(icons[k].href)
    {
      icons[i].active := false;
      if Fragment(icons[i].href) == current {
        icons[i].active := true;
      }
    }
  }

  /** With pairwise different fragments, the nav update leaves at most one
      icon active. */
  lemma AtMostOneActive(icons: array<NavIcon>, current: string)
    requires forall i, j :: 0 <= i < j < icons.Length ==> Fragment(icons[i].href) != Fragment(icons[j].href)
    requires forall i :: 0 <= i < icons.Length ==> icons[i].active == (Fragment(icons[i].href) == current)
    ensures |set i | 0 <= i < icons.Length && icons[i].active| <= 1
  {
    var act := set i | 0 <= i < icons.Length && icons[i].active;
    if act != {} {
      var k :| k in act;
      assert act == {k};
    }
  }

  /** The whole scroll listener (js/main.js:117-133). */
  method OnScroll(secs: seq<Section>, icons: array<NavIcon>, y: real)
    modifies icons[..]
    ensures forall i :: 0 <= i < icons.Length ==> icons[i].active == (Fragment(icons[i].href) == ActiveId(secs, y))
    ensures forall i :: 0 <= i < icons.Length ==> icons[i].href == old(icons[i].href)
  {
    var current := FindCurrent(secs, y);
    UpdateNavIcons(icons, current);
  }
}
