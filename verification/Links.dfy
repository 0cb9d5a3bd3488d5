/** The link map `nbr2if` of the HPCC driver, and what taking links down does to it. */
module Links {

  /** A node, numbered by the rank of its address: the order in which a std::map keyed by node iterates. */
  type Node = int

  /** One end of a link. `delay` is in nanoseconds, `bw` in bits per second. */
  datatype Interface = Interface(idx: nat, up: bool, delay: nat, bw: nat)

  type LinkMap = map<Node, map<Node, Interface>>

  /** What `nbr2if[a]` holds; a missing outer key stands for an empty inner map. */
  function Neighbours(links: LinkMap, a: Node): map<Node, Interface> {
    if a in links then links[a] else map[]
  }

  /** The map has an entry, working or not, from `a` to `b`. */
  predicate Adjacent(links: LinkMap, a: Node, b: Node) {
    b in Neighbours(links, a)
  }

  predicate Up(links: LinkMap, a: Node, b: Node) {
    b in Neighbours(links, a) && Neighbours(links, a)[b].up
  }

  function Get(links: LinkMap, a: Node, b: Node): Interface
    requires b in Neighbours(links, a)
  {
    Neighbours(links, a)[b]
  }

  function Put(links: LinkMap, a: Node, b: Node, i: Interface): LinkMap {
    links[a := Neighbours(links, a)[b := i]]
  }

  ghost predicate Symmetric(links: LinkMap) {
    forall a, b :: Up(links, a, b) ==> Up(links, b, a)
  }

  /** Every working link has a rate: the driver divides by it. */
  ghost predicate Rated(links: LinkMap) {
    forall a, b :: Up(links, a, b) ==> Get(links, a, b).bw > 0
  }

  /** The two ends that reading one topology row installs. The second end wins when a node is linked to itself. */
  function AddLink(links: LinkMap, a: Node, b: Node, atA: Interface, atB: Interface): LinkMap {
    Put(Put(links, a, b, atA.(up := true)), b, a, atB.(up := true))
  }

  /** Building the map row by row keeps the flags symmetric and every working link rated. */
  lemma AddLinkKeeps(links: LinkMap, a: Node, b: Node, atA: Interface, atB: Interface)
    requires Symmetric(links) && Rated(links) && atA.bw > 0 && atB.bw > 0
    ensures Symmetric(AddLink(links, a, b, atA, atB)) && Rated(AddLink(links, a, b, atA, atB))
    ensures forall x, y :: Up(AddLink(links, a, b, atA, atB), x, y) <==>
            Up(links, x, y) || (x, y) == (a, b) || (x, y) == (b, a)
  {
    var r := AddLink(links, a, b, atA, atB);
    forall x, y
      ensures Up(r, x, y) <==> Up(links, x, y) || (x, y) == (a, b) || (x, y) == (b, a)
      ensures Up(r, x, y) ==> Get(r, x, y).bw > 0
    {
    }
  }

  lemma AddLinkKnows(links: LinkMap, a: Node, b: Node, atA: Interface, atB: Interface)
    ensures forall x, y :: Adjacent(AddLink(links, a, b, atA, atB), x, y) ==>
              Adjacent(links, x, y) || (x == a && y == b) || (x == b && y == a)
  {
  }

  /** One row of the topology file, once its two devices are installed. */
  datatype LinkRow = LinkRow(a: Node, b: Node, atA: Interface, atB: Interface)

  /** The link map that reading `rows` builds; of parallel links the last one read stays. */
  function MapOf(rows: seq<LinkRow>): LinkMap {
    if rows == [] then map[]
    else
      var last := rows[|rows| - 1];
      AddLink(MapOf(rows[..|rows| - 1]), last.a, last.b, last.atA, last.atB)
  }

  lemma {:induction false} MapOfSymmetric(rows: seq<LinkRow>)
    requires forall r :: r in rows ==> r.atA.bw > 0 && r.atB.bw > 0
    ensures Symmetric(MapOf(rows)) && Rated(MapOf(rows))
  {
    if rows != [] {
      var last := rows[|rows| - 1];
      MapOfSymmetric(rows[..|rows| - 1]);
      AddLinkKeeps(MapOf(rows[..|rows| - 1]), last.a, last.b, last.atA, last.atB);
    }
  }

  predicate Names(r: LinkRow, x: Node, y: Node) {
    (r.a == x && r.b == y) || (r.b == x && r.a == y)
  }

  /** No later row names the same two nodes. */
  ghost predicate LastNaming(rows: seq<LinkRow>, i: nat)
    requires i < |rows|
  {
    forall j :: i < j < |rows| ==> !Names(rows[j], rows[i].a, rows[i].b)
  }

  /** Each end of a row is stored, up, at its own node; a node linked to itself keeps the second end. */
  ghost predicate EndsStored(links: LinkMap, r: LinkRow) {
    && r.b in links && r.a in links[r.b] && links[r.b][r.a] == r.atB.(up := true)
    && (r.a != r.b ==> r.a in links && r.b in links[r.a] && links[r.a][r.b] == r.atA.(up := true))
  }

  /** The ends of the last row for any two nodes are stored, and nothing else is. */
  ghost predicate Installed(links: LinkMap, rows: seq<LinkRow>) {
    && (forall i :: 0 <= i < |rows| && LastNaming(rows, i) ==> EndsStored(links, rows[i]))
    && (forall x, y :: Adjacent(links, x, y) ==> exists i :: 0 <= i < |rows| && Names(rows[i], x, y))
  }

  lemma {:induction false} MapOfInstalled(rows: seq<LinkRow>)
    ensures Installed(MapOf(rows), rows)
  {
    if rows != [] {
      var front := rows[..|rows| - 1];
      MapOfInstalled(front);
      RowInstalled(MapOf(front), rows);
    }
  }

  /** `r`'s two entries are stored in `links'`, and every other entry is as in `links`. */
  ghost predicate Stores(links: LinkMap, links': LinkMap, r: LinkRow) {
    && EndsStored(links', r)
    && forall x, y :: !Names(r, x, y) ==>
         && (Adjacent(links', x, y) <==> Adjacent(links, x, y))
         && (Adjacent(links, x, y) && Adjacent(links', x, y) ==> links'[x][y] == links[x][y])
  }

  lemma AddLinkStores(links: LinkMap, r: LinkRow)
    ensures Stores(links, AddLink(links, r.a, r.b, r.atA, r.atB), r)
  {
    var r' := AddLink(links, r.a, r.b, r.atA, r.atB);
    forall x, y | !Names(r, x, y)
      ensures Adjacent(r', x, y) <==> Adjacent(links, x, y)
      ensures Adjacent(links, x, y) ==> r'[x][y] == links[x][y]
    {
    }
  }

  lemma RowInstalled(links: LinkMap, rows: seq<LinkRow>)
    requires rows != [] && Installed(links, rows[..|rows| - 1])
    ensures
      var r := rows[|rows| - 1];
      Installed(AddLink(links, r.a, r.b, r.atA, r.atB), rows)
  {
    hide AddLink;
    var n := |rows| - 1;
    var links' := AddLink(links, rows[n].a, rows[n].b, rows[n].atA, rows[n].atB);
    AddLinkStores(links, rows[n]);
    forall i | 0 <= i < n && LastNaming(rows, i)
      ensures EndsStored(links', rows[i])
    {
      EarlierRow(links, links', rows, i);
    }
    forall x, y | Adjacent(links', x, y)
      ensures exists i :: 0 <= i < |rows| && Names(rows[i], x, y)
    {
      if Names(rows[n], x, y) {
        assert Names(rows[n], x, y);
      } else {
        assert Adjacent(links, x, y);
        var i :| 0 <= i < n && Names(rows[..n][i], x, y);
        assert Names(rows[i], x, y);
      }
    }
  }

  lemma EarlierRow(links: LinkMap, links': LinkMap, rows: seq<LinkRow>, i: nat)
    requires rows != [] && i < |rows| - 1 && Installed(links, rows[..|rows| - 1]) && LastNaming(rows, i)
    requires Stores(links, links', rows[|rows| - 1])
    ensures EndsStored(links', rows[i])
  {
    var n := |rows| - 1;
    var front, r := rows[..n], rows[i];
    assert forall j :: i < j < n ==> front[j] == rows[j];
    assert front[i] == r && LastNaming(front, i);
    assert !Names(rows[n], r.a, r.b) && !Names(rows[n], r.b, r.a);
    assert Adjacent(links, r.b, r.a) && (r.a != r.b ==> Adjacent(links, r.a, r.b));
  }

  /** The entry that reading a missing `nbr2if[a][b]` leaves behind: down, with nothing else ever read. */
  const DEFAULT_INTERFACE := Interface(0, false, 0, 0)

  function Touch(links: LinkMap, a: Node, b: Node): LinkMap {
    if b in Neighbours(links, a) then links else Put(links, a, b, DEFAULT_INTERFACE)
  }

  function Lower(links: LinkMap, a: Node, b: Node): LinkMap {
    var l := Touch(links, a, b);
    Put(l, a, b, Get(l, a, b).(up := false))
  }

  /** The link map after TakeDownLink(a, b). */
  function TakeDown(links: LinkMap, a: Node, b: Node): LinkMap {
    if Up(links, a, b) then Lower(Lower(links, a, b), b, a) else Touch(links, a, b)
  }

  function TakeDownAll(links: LinkMap, events: seq<(Node, Node)>): LinkMap {
    if events == [] then links
    else
      var before := TakeDownAll(links, events[..|events| - 1]);
      TakeDown(before, events[|events| - 1].0, events[|events| - 1].1)
  }

  /** Both maps have the same working links, with the same attributes. */
  ghost predicate SameWorking(l1: LinkMap, l2: LinkMap) {
    && (forall a, b :: Up(l1, a, b) <==> Up(l2, a, b))
    && (forall a, b :: Up(l1, a, b) && Up(l2, a, b) ==> Get(l1, a, b) == Get(l2, a, b))
  }

  /** The event (x, y) or (y, x) is among the failures. */
  predicate Failed(events: seq<(Node, Node)>, x: Node, y: Node) {
    (x, y) in events || (y, x) in events
  }

  /** One failure removes exactly the two directions of that link and alters nothing else that works. */
  lemma TakeDownWorks(links: LinkMap, a: Node, b: Node)
    requires Symmetric(links)
    ensures forall x, y :: Up(TakeDown(links, a, b), x, y) <==> Up(links, x, y) && (x, y) != (a, b) && (x, y) != (b, a)
    ensures forall x, y :: Up(TakeDown(links, a, b), x, y) ==> Get(TakeDown(links, a, b), x, y) == Get(links, x, y)
    ensures Symmetric(TakeDown(links, a, b))
  {
    var r := TakeDown(links, a, b);
    forall x, y
      ensures Up(r, x, y) <==> Up(links, x, y) && (x, y) != (a, b) && (x, y) != (b, a)
      ensures Up(r, x, y) ==> Get(r, x, y) == Get(links, x, y)
    {
    }
  }

  /** A failure mentions no nodes other than those already linked and its own two. */
  lemma TakeDownKnows(links: LinkMap, a: Node, b: Node)
    ensures forall x, y :: Adjacent(TakeDown(links, a, b), x, y) ==>
              Adjacent(links, x, y) || (x == a && y == b) || (x == b && y == a)
    ensures forall x, y :: Adjacent(Touch(links, a, b), x, y) ==> Adjacent(links, x, y) || (x == a && y == b)
  {
  }

  /** After any sequence of failures, a link works exactly when it worked before and is not among them. */
  lemma {:induction false} TakeDownAllWorks(links: LinkMap, events: seq<(Node, Node)>)
    requires Symmetric(links)
    ensures Symmetric(TakeDownAll(links, events))
    ensures forall x, y :: Up(TakeDownAll(links, events), x, y) <==> Up(links, x, y) && !Failed(events, x, y)
    ensures forall x, y :: Up(TakeDownAll(links, events), x, y) ==>
              Get(TakeDownAll(links, events), x, y) == Get(links, x, y)
  {
    if events != [] {
      var front, last := events[..|events| - 1], events[|events| - 1];
      TakeDownAllWorks(links, front);
      TakeDownWorks(TakeDownAll(links, front), last.0, last.1);
      assert events == front + [last];
      assert forall x, y :: Failed(events, x, y) <==> Failed(front, x, y) || (x, y) == last || (y, x) == last;
    }
  }

  /** The rows that name no failed pair. */
  function Unfailed(rows: seq<LinkRow>, events: seq<(Node, Node)>): seq<LinkRow> {
    if rows == [] then []
    else
      var last := rows[|rows| - 1];
      Unfailed(rows[..|rows| - 1], events) + if Failed(events, last.a, last.b) then [] else [last]
  }

  lemma {:induction false} UnfailedRows(rows: seq<LinkRow>, events: seq<(Node, Node)>)
    ensures forall r :: r in Unfailed(rows, events) ==> r in rows
  {
    if rows != [] {
      UnfailedRows(rows[..|rows| - 1], events);
    }
  }

  /** `kept` has the working links of `all` other than the failed ones, with the same attributes. */
  ghost predicate WithoutFailed(all: LinkMap, kept: LinkMap, events: seq<(Node, Node)>) {
    forall x, y ::
      && (Up(kept, x, y) <==> Up(all, x, y) && !Failed(events, x, y))
      && (Up(kept, x, y) && Up(all, x, y) ==> Get(kept, x, y) == Get(all, x, y))
  }

  /** Reading only the rows that name no failed pair gives the working links that the failures leave. */
  lemma SurvivingRows(rows: seq<LinkRow>, events: seq<(Node, Node)>)
    requires forall r :: r in rows ==> r.atA.bw > 0 && r.atB.bw > 0
    ensures SameWorking(TakeDownAll(MapOf(rows), events), MapOf(Unfailed(rows, events)))
  {
    MapOfSymmetric(rows);
    TakeDownAllWorks(MapOf(rows), events);
    UnfailedWorks(rows, events);
  }

  lemma {:induction false} UnfailedWorks(rows: seq<LinkRow>, events: seq<(Node, Node)>)
    ensures WithoutFailed(MapOf(rows), MapOf(Unfailed(rows, events)), events)
  {
    hide WithoutFailed, AddLink, Failed;
    if rows == [] {
      NoLinks(events);
    } else {
      var front, last := rows[..|rows| - 1], rows[|rows| - 1];
      UnfailedWorks(front, events);
      RowStep(MapOf(front), MapOf(Unfailed(front, events)), events, last);
      var kept := Unfailed(front, events);
      assert kept + [] == kept && (kept + [last])[..|kept|] == kept;
    }
  }

  lemma NoLinks(events: seq<(Node, Node)>)
    ensures WithoutFailed(map[], map[], events)
  {
  }

  lemma RowStep(all: LinkMap, kept: LinkMap, events: seq<(Node, Node)>, r: LinkRow)
    requires WithoutFailed(all, kept, events)
    ensures
      var all' := AddLink(all, r.a, r.b, r.atA, r.atB);
      WithoutFailed(all', if Failed(events, r.a, r.b) then kept else AddLink(kept, r.a, r.b, r.atA, r.atB), events)
  {
    var all', kept' := AddLink(all, r.a, r.b, r.atA, r.atB), AddLink(kept, r.a, r.b, r.atA, r.atB);
    var k := if Failed(events, r.a, r.b) then kept else kept';
    forall x, y
      ensures Up(k, x, y) <==> Up(all', x, y) && !Failed(events, x, y)
      ensures Up(k, x, y) && Up(all', x, y) ==> Get(k, x, y) == Get(all', x, y)
    {
      assert Up(kept, x, y) <==> Up(all, x, y) && !Failed(events, x, y);
    }
  }
}
