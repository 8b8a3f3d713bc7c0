/**
  The change mask of `node_ref.rs` (a module this model does not include): which attributes,
  whether the text and whether the listeners of a node changed, or which of those a pass reads.
  A mask denotes a set of categories (`Covers`); `Overlaps` and `Union` are proved against it.
*/
module NodeMasks {

  type AttributeName = string

  /** The attribute part of a mask: every attribute, or the named ones. */
  datatype AttributeMask = AllAttributes | SomeAttributes(names: set<AttributeName>)

  datatype NodeMask = NodeMask(attributes: AttributeMask, text: bool, listeners: bool)

  /** What a mask can mention. */
  datatype Category = Attribute(name: AttributeName) | TextCategory | ListenersCategory

  /** The meaning of a mask: the categories it covers. */
  predicate Covers(m: NodeMask, c: Category) {
    match c
    case Attribute(name) => m.attributes.AllAttributes? || name in m.attributes.names
    case TextCategory => m.text
    case ListenersCategory => m.listeners
  }

  /** `NodeMaskBuilder::ALL`: every category. */
  const ALL: NodeMask := NodeMask(AllAttributes, true, true)

  /** The empty mask of `NodeMaskBuilder::new()`. */
  const EMPTY: NodeMask := NodeMask(SomeAttributes({}), false, false)

  function AttributeOverlaps(a: AttributeMask, b: AttributeMask): bool {
    match (a, b)
    case (AllAttributes, AllAttributes) => true
    case (AllAttributes, SomeAttributes(s)) => s != {}
    case (SomeAttributes(s), AllAttributes) => s != {}
    case (SomeAttributes(s), SomeAttributes(t)) => s * t != {}
  }

  /** Whether two masks share a category. */
  function Overlaps(a: NodeMask, b: NodeMask): bool {
    AttributeOverlaps(a.attributes, b.attributes) || (a.text && b.text) || (a.listeners && b.listeners)
  }

  function AttributeUnion(a: AttributeMask, b: AttributeMask): AttributeMask {
    match (a, b)
    case (SomeAttributes(s), SomeAttributes(t)) => SomeAttributes(s + t)
    case _ => AllAttributes
  }

  /** The union of two masks covers exactly what either covers. */
  function Union(a: NodeMask, b: NodeMask): (r: NodeMask)
    ensures forall c :: Covers(r, c) <==> Covers(a, c) || Covers(b, c)
  {
    NodeMask(AttributeUnion(a.attributes, b.attributes), a.text || b.text, a.listeners || b.listeners)
  }

  /** The mask `set_attribute`, `remove_attribute` and `get_attribute_mut` report: one attribute. */
  function AttributeMaskOf(name: AttributeName): (m: NodeMask)
    ensures forall c :: Covers(m, c) <==> c == Attribute(name)
  {
    NodeMask(SomeAttributes({name}), false, false)
  }

  /** The mask `text_mut` reports. */
  function TextMask(): (m: NodeMask)
    ensures forall c :: Covers(m, c) <==> c == TextCategory
  {
    NodeMask(SomeAttributes({}), true, false)
  }

  /** The mask the listener methods report. */
  function ListenersMask(): (m: NodeMask)
    ensures forall c :: Covers(m, c) <==> c == ListenersCategory
  {
    NodeMask(SomeAttributes({}), false, true)
  }

  /** ALL covers everything and EMPTY nothing. */
  lemma AllAndEmpty(c: Category)
    ensures Covers(ALL, c) && !Covers(EMPTY, c)
  {
  }

  /** Overlap is exactly "some category is covered by both masks". */
  lemma {:induction false} OverlapsIffSharedCategory(a: NodeMask, b: NodeMask)
    ensures Overlaps(a, b) <==> exists c :: Covers(a, c) && Covers(b, c)
  {
    if Overlaps(a, b) {
      if a.text && b.text {
        assert Covers(a, TextCategory) && Covers(b, TextCategory);
      } else if a.listeners && b.listeners {
        assert Covers(a, ListenersCategory) && Covers(b, ListenersCategory);
      } else {
        var name := SharedName(a.attributes, b.attributes);
        assert Covers(a, Attribute(name)) && Covers(b, Attribute(name));
      }
    } else {
      forall c | Covers(a, c) && Covers(b, c) ensures false {
        if c.Attribute? {
          SharedNameOverlaps(a.attributes, b.attributes, c.name);
        }
      }
    }
  }

  /** A name both attribute masks cover, when they overlap. */
  lemma SharedName(a: AttributeMask, b: AttributeMask) returns (name: AttributeName)
    requires AttributeOverlaps(a, b)
    ensures (a.AllAttributes? || name in a.names) && (b.AllAttributes? || name in b.names)
  {
    match (a, b)
    case (AllAttributes, AllAttributes) => name := "";
    case (AllAttributes, SomeAttributes(t)) => name :| name in t;
    case (SomeAttributes(s), AllAttributes) => name :| name in s;
    case (SomeAttributes(s), SomeAttributes(t)) => name :| name in s * t;
  }

  /** A name both attribute masks cover makes them overlap. */
  lemma SharedNameOverlaps(a: AttributeMask, b: AttributeMask, name: AttributeName)
    requires (a.AllAttributes? || name in a.names) && (b.AllAttributes? || name in b.names)
    ensures AttributeOverlaps(a, b)
  {
    if a.SomeAttributes? && b.SomeAttributes? {
      assert name in a.names * b.names;
    }
  }

  /** Overlap is symmetric, and the union overlaps a mask iff one of its parts does. */
  lemma {:induction false} OverlapsUnion(a: NodeMask, b: NodeMask, p: NodeMask)
    ensures Overlaps(Union(a, b), p) <==> Overlaps(a, p) || Overlaps(b, p)
    ensures Overlaps(a, p) == Overlaps(p, a)
  {
    OverlapsIffSharedCategory(Union(a, b), p);
    OverlapsIffSharedCategory(a, p);
    OverlapsIffSharedCategory(b, p);
    OverlapsIffSharedCategory(p, a);
  }
}
