/** Edges between basic blocks and what a run records about them (common/common.hpp). */
module Edges {
  import opened Common
  import opened OrderedKeys

  datatype Edge = Edge(src: nat, dst: nat, imgsrc: int, imgdst: int)

  datatype Info = Info(tid: int, loops: nat, pos: nat)

  function EdgeLess(a: Edge, b: Edge): bool {
    a.src < b.src || (a.src == b.src &&
      (a.dst < b.dst || (a.dst == b.dst &&
        (a.imgsrc < b.imgsrc || (a.imgsrc == b.imgsrc && a.imgdst < b.imgdst)))))
  }

  /** Thread, then position, then count. */
  function InfoLess(a: Info, b: Info): bool {
    a.tid < b.tid || (a.tid == b.tid &&
      (a.pos < b.pos || (a.pos == b.pos && a.loops < b.loops)))
  }

  /** Records by ascending source, then destination, then image of the source, then of the destination. */
  predicate Follows(a: Edge, b: Edge) {
    && a.src <= b.src
    && (a.src == b.src ==> a.dst <= b.dst)
    && (a.src == b.src && a.dst == b.dst ==> a.imgsrc <= b.imgsrc)
    && (a.src == b.src && a.dst == b.dst && a.imgsrc == b.imgsrc ==> a.imgdst < b.imgdst)
  }

  predicate Ascend<V>(r: seq<(Edge, V)>) { forall i, j :: 0 <= i < j < |r| ==> Follows(r[i].0, r[j].0) }

  /** The walk over a map meets its edges in this order. */
  lemma ItemsAscend<V>(m: map<Edge, V>)
    ensures Total(EdgeLess) && Ascend(Items(EdgeLess, m))
  {
    hide Items, Total;
    EdgesTotal();
    var r := Items(EdgeLess, m);
    forall i, j | 0 <= i < j < |r| ensures Follows(r[i].0, r[j].0) {
      ItemsIncrease(EdgeLess, m, i, j);
    }
  }

  lemma EdgesTotal()
    ensures Total(EdgeLess)
  {}

  lemma InfosTotal()
    ensures Total(InfoLess)
  {}
}

/** Images a program loads (common/image.hpp). */
module Images {
  datatype Image = Image(addr: nat, end: nat, name: string, seqno: int, sha1: string)

  /** img_map_t: images by the number the trace uses. */
  type Table = map<int, Image>

  /** The number an edge gets for an image; operator[] makes up number 0 for a missing one. */
  function Number(imgs: Table, k: int): int {
    if k in imgs then imgs[k].seqno else 0
  }
}
