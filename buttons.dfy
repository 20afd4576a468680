/** Which links the page turns into buttons: the first link of each type,
    and nothing at all for an empty list. */
module Buttons {
  import opened Options
  import opened Text
  import opened UnsubscribeLinks

  /** Position of the first link of the given type, if there is one. */
  function FirstIndex(links: seq<Link>, kind: LinkKind): (r: Option<nat>)
    ensures r.Some? ==> r.value < |links| && links[r.value].kind == kind
    ensures r.Some? ==> forall j :: 0 <= j < r.value ==> links[j].kind != kind
    ensures r.None? ==> forall j :: 0 <= j < |links| ==> links[j].kind != kind
    decreases |links|
  {
    if links == [] then None
    else if links[0].kind == kind then Some(0)
    else match FirstIndex(links[1..], kind)
      case None => None
      case Some(i) => Some(i + 1)
  }

  /** `links.find(link => link.type === kind)`. */
  function Find(links: seq<Link>, kind: LinkKind): (r: Option<Link>)
    ensures r.Some? ==> r.value in links && r.value.kind == kind
    ensures r.None? <==> forall j :: 0 <= j < |links| ==> links[j].kind != kind
  {
    match FirstIndex(links, kind)
    case None => None
    case Some(i) => Some(links[i])
  }

  /** The button targets: `None` stands for the early `false` on an empty
      list; otherwise the web target and the email target. */
  function ButtonTargets(links: seq<Link>): (r: Option<(Option<Link>, Option<Link>)>)
    ensures r.None? <==> links == []
  {
    if |links| == 0 then None
    else Some((Find(links, Http), Find(links, Email)))
  }

  /** `find` yields a link of the requested type, and the earliest one;
      it yields nothing exactly when no link has that type. */
  lemma FindFirst(links: seq<Link>, kind: LinkKind)
    ensures Find(links, kind).None? <==> forall j :: 0 <= j < |links| ==> links[j].kind != kind
    ensures Find(links, kind).Some? ==>
      exists i :: 0 <= i < |links| && links[i] == Find(links, kind).value && links[i].kind == kind &&
        forall j :: 0 <= j < i ==> links[j].kind != kind
  {
    if FirstIndex(links, kind).Some? {
      var i := FirstIndex(links, kind).value;
      assert links[i] == Find(links, kind).value;
    }
  }

  /** Appending links after a link of the requested type does not change
      which one `find` picks. */
  lemma {:induction false} FindPrefix(a: seq<Link>, b: seq<Link>, kind: LinkKind)
    requires Find(a, kind).Some?
    ensures Find(a + b, kind) == Find(a, kind)
    decreases |a|
  {
    if a[0].kind != kind {
      assert (a + b)[1..] == a[1..] + b;
      FindPrefix(a[1..], b, kind);
    }
  }

  /** A non-empty list always yields at least one button, because every
      link is either a web link or an email link. */
  lemma SomeButton(links: seq<Link>)
    requires links != []
    ensures ButtonTargets(links).Some?
    ensures ButtonTargets(links).value.0.Some? || ButtonTargets(links).value.1.Some?
  {
    FindFirst(links, Http);
    FindFirst(links, Email);
    assert links[0].kind == Http || links[0].kind == Email;
  }

  /** For links produced by the parser, the web button points at an `http`
      url and the email button at a `mailto` url. */
  lemma ButtonUrls(links: seq<Link>)
    requires forall i :: 0 <= i < |links| ==> WellTyped(links[i])
    ensures ButtonTargets(links).Some? && ButtonTargets(links).value.0.Some? ==>
      StartsWith(ButtonTargets(links).value.0.value.url, "http")
    ensures ButtonTargets(links).Some? && ButtonTargets(links).value.1.Some? ==>
      StartsWith(ButtonTargets(links).value.1.value.url, "mailto")
  {
    FindFirst(links, Http);
    FindFirst(links, Email);
  }
}
