/** The buffer data model shared by the splitter and the merger: the fixed
    attribute channels `normal`, `position` and `uv`, an attribute as a flat
    array with an item size, draw groups, the optional index, and meshes. */
module Buffers {
  import opened Options
  import opened Seqs

  /** The attribute channels every geometry of this engine carries. */
  datatype Property = Normal | Position | Uv

  /** One value per channel (`Record<AttributeProperty, A>`). */
  datatype Channels<A> = Channels(normal: A, position: A, uv: A) {
    function Get(p: Property): A {
      match p
      case Normal => normal
      case Position => position
      case Uv => uv
    }
  }

  /** A flat attribute array (`data`) whose items are `itemSize` entries wide. */
  datatype Attribute = Attribute(data: seq<real>, itemSize: nat)

  /** An attribute as the merger reads it, with the item count the buffer reports. */
  datatype AttributeFull = AttributeFull(data: seq<real>, itemSize: nat, count: nat)

  /** A draw range `[start, start + count)`, in index entries when the geometry
      is indexed and in vertices otherwise, drawn with material slot `materialIndex`. */
  datatype Group = Group(start: nat, count: nat, materialIndex: Option<nat>)

  /** A geometry as both engines read it: attributes with counts, the optional
      index, and the groups. */
  datatype AttributesFull = AttributesFull(
    attributes: Channels<AttributeFull>,
    index: Option<seq<nat>>,
    groups: seq<Group>)

  /** A geometry the engines build: attributes, optional index, groups. */
  datatype Geometry = Geometry(
    attributes: Channels<Attribute>,
    index: Option<seq<nat>>,
    groups: seq<Group>)

  /** A mesh's material: one material, or one per material slot. */
  datatype MaterialSpec<M> = Single(material: M) | Several(materials: seq<M>)

  datatype Mesh<M> = Mesh(geometry: AttributesFull, material: MaterialSpec<M>)

  /** The attribute without its count, as the splitter reads it. */
  function Strip(a: AttributeFull): Attribute {
    Attribute(a.data, a.itemSize)
  }

  /** Every channel of a geometry without counts. */
  function AttributesOf(g: AttributesFull): (r: Channels<Attribute>)
    ensures forall p :: r.Get(p) == Strip(g.attributes.Get(p))
  {
    Channels(Strip(g.attributes.normal), Strip(g.attributes.position), Strip(g.attributes.uv))
  }

  /** Item `j` of an attribute, clamped as `array.slice` clamps. */
  function Item(a: Attribute, j: nat): seq<real> {
    ItemOf(a.data, a.itemSize, j)
  }

  /** Item `j` as a zero-initialised typed array of `itemSize` entries holds it
      after the (possibly short) item was copied to its front. */
  function PaddedItem(a: Attribute, j: nat): (r: seq<real>)
    ensures |r| == a.itemSize
    ensures (j + 1) * a.itemSize <= |a.data| ==> r == a.data[j * a.itemSize .. j * a.itemSize + a.itemSize]
  {
    var arr := Item(a, j);
    arr + seq(a.itemSize - |arr|, _ => 0.0)
  }

  /** Item `j` lies inside the attribute array. */
  predicate ItemInRange(a: Attribute, j: nat) {
    (j + 1) * a.itemSize <= |a.data|
  }

  /** Two attributes of `n` items each, of the same item size, that agree
      item by item are the same attribute. */
  lemma AttributesDetermined(x: Attribute, y: Attribute, n: nat)
    requires x.itemSize == y.itemSize
    requires |x.data| == n * x.itemSize && |y.data| == n * y.itemSize
    requires forall i :: 0 <= i < n ==> Item(x, i) == Item(y, i)
    ensures x == y
  {
    forall i | 0 <= i < n
      ensures ItemOf(x.data, x.itemSize, i) == ItemOf(y.data, x.itemSize, i)
    {
      assert Item(x, i) == Item(y, i);
    }
    ItemsDetermine(x.data, y.data, x.itemSize, n);
  }
}
