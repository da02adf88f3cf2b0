/** The link table of `main/link_registry.c`. */
module LinkRegistry {
  import opened Prelude

  const MAX_LINKS: nat := 4

  datatype Role = Downlink | Uplink

  /** A registered link; `reports` tells whether it supplies an `is_connected` callback. */
  datatype Link = Link(name: string, role: Role, reports: bool)

  function Registered(links: seq<Link>, link: Option<Link>): seq<Link> {
    if link.None? || |links| >= MAX_LINKS then links else links + [link.value]
  }

  function RegisteredAll(links: seq<Link>, more: seq<Option<Link>>): seq<Link> {
    if more == [] then links
    else Registered(RegisteredAll(links, more[..|more| - 1]), more[|more| - 1])
  }

  function Given(more: seq<Option<Link>>): seq<Link> {
    if more == [] then [] else
      var last := more[|more| - 1];
      Given(more[..|more| - 1]) + (if last.Some? then [last.value] else [])
  }

  /** The table holds the first four links that were given, in order. */
  lemma {:induction false} FirstFourAreHeld(more: seq<Option<Link>>)
    ensures RegisteredAll([], more) == Truncated(Given(more), 4)
  {
    if more != [] {
      FirstFourAreHeld(more[..|more| - 1]);
    }
  }

  /** Whether link `i` plays `role` and reports connected when the flags read `up`. */
  predicate Serves(links: seq<Link>, up: seq<bool>, role: Role, i: nat)
    requires i < |links| == |up|
  {
    links[i].role == role && links[i].reports && up[i]
  }

  /** The first link serving `role`, at or after position `from`. */
  function FirstServing(links: seq<Link>, up: seq<bool>, role: Role, from: nat): (r: Option<nat>)
    requires from <= |links| == |up|
    ensures r.Some? ==> from <= r.value < |links| && Serves(links, up, role, r.value)
    ensures forall i :: from <= i < |links| && (r.Some? ==> i < r.value) ==> !Serves(links, up, role, i)
    decreases |links| - from
  {
    if from == |links| then None
    else if Serves(links, up, role, from) then Some(from)
    else FirstServing(links, up, role, from + 1)
  }

  class Registry {
    const links: array<Link>
    var linkCount: nat

    ghost predicate Valid()
      reads this
    {
      links.Length == MAX_LINKS && linkCount <= MAX_LINKS
    }

    ghost function View(): seq<Link>
      requires Valid()
      reads this, links
    {
      links[..linkCount]
    }

    constructor ()
      ensures Valid() && fresh(links) && View() == []
    {
      links := new Link[MAX_LINKS](_ => Link("", Downlink, false));
      linkCount := 0;
    }

    method Register(link: Option<Link>)
      requires Valid()
      modifies this, links
      ensures Valid() && View() == Registered(old(View()), link)
    {
      if link.None? || linkCount >= MAX_LINKS { return; }
      links[linkCount] := link.value;
      linkCount := linkCount + 1;
    }

    method FindConnected(role: Role, up: seq<bool>) returns (r: Option<nat>)
      requires Valid() && |up| == linkCount
      ensures r == FirstServing(View(), up, role, 0)
    {
      var i := 0;
      while i < linkCount
        invariant 0 <= i <= linkCount
        invariant FirstServing(View(), up, role, 0) == FirstServing(View(), up, role, i)
      {
        if links[i].role == role && links[i].reports && up[i] {
          return Some(i);
        }
        i := i + 1;
      }
      return None;
    }
  }
}
