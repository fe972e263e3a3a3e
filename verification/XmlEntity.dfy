/** jni/xml/mxml-entity.c: names of characters and characters of names. */
module XmlEntity {
  import opened CString

  const AMP: byte := 38
  const LT: byte := 60
  const GT: byte := 62
  const QUOT: byte := 34

  const S_AMP: seq<byte> := [97, 109, 112]
  const S_LT: seq<byte> := [108, 116]
  const S_GT: seq<byte> := [103, 116]
  const S_QUOT: seq<byte> := [113, 117, 111, 116]

  /** Characters the printer replaces by an entity. */
  predicate NeedsEntity(c: int) { c == AMP || c == LT || c == GT || c == QUOT }

  /** mxmlEntityGetName; [] stands for NULL. */
  function EntityName(c: int): seq<byte> {
    if c == AMP then S_AMP
    else if c == LT then S_LT
    else if c == GT then S_GT
    else if c == QUOT then S_QUOT
    else []
  }

  datatype Entity = Entity(name: seq<byte>, val: nat)

  /** The reference search: the value of the first entry with that name, or -1. */
  function Lookup(es: seq<Entity>, name: seq<byte>): int {
    if es == [] then -1
    else if es[0].name == name then es[0].val
    else Lookup(es[1..], name)
  }

  predicate Sorted(es: seq<Entity>) {
    forall i, j :: 0 <= i < j < |es| ==> Strcmp(es[i].name, es[j].name) < 0
  }

  lemma {:induction false} LookupAt(es: seq<Entity>, name: seq<byte>, k: nat)
    requires k < |es| && es[k].name == name && forall i :: 0 <= i < k ==> es[i].name != name
    ensures Lookup(es, name) == es[k].val
  {
    if k > 0 {
      LookupAt(es[1..], name, k - 1);
    }
  }

  lemma {:induction false} LookupNone(es: seq<Entity>, name: seq<byte>)
    requires forall i :: 0 <= i < |es| ==> es[i].name != name
    ensures Lookup(es, name) == -1
  {
    if es != [] {
      LookupNone(es[1..], name);
    }
  }

  /** In a sorted table, entries beyond one that compares unequal cannot match on that side. */
  lemma {:induction false} Discards(es: seq<Entity>, name: seq<byte>, k: nat)
    requires Sorted(es) && k < |es| && Strcmp(name, es[k].name) != 0
    ensures Strcmp(name, es[k].name) < 0 ==> forall i :: k <= i < |es| ==> es[i].name != name
    ensures Strcmp(name, es[k].name) > 0 ==> forall i :: 0 <= i <= k ==> es[i].name != name
  {
    StrcmpZero(name, es[k].name);
    StrcmpFlip(name, es[k].name);
    StrcmpFlip(es[k].name, name);
  }

  lemma {:induction false} OnlyAt(es: seq<Entity>, name: seq<byte>, k: nat)
    requires Sorted(es) && k < |es| && es[k].name == name
    ensures Lookup(es, name) == es[k].val
  {
    forall i | 0 <= i < k ensures es[i].name != name {
      StrcmpZero(es[i].name, es[k].name);
    }
    LookupAt(es, name, k);
  }

  /** _mxml_entity_cb: binary search down to two candidates, then both of them. */
  method EntityValue(entities: seq<Entity>, name: seq<byte>) returns (val: int)
    requires entities != [] && Sorted(entities)
    ensures val == Lookup(entities, name)
  {
    var first, last := 0, |entities| - 1;
    while last - first > 1
      invariant 0 <= first <= last < |entities|
      invariant forall i :: 0 <= i < first || last < i < |entities| ==> entities[i].name != name
      decreases last - first
    {
      var current := (first + last) / 2;
      var diff := Strcmp(name, entities[current].name);
      StrcmpZero(name, entities[current].name);
      if diff == 0 {
        OnlyAt(entities, name, current);
        return entities[current].val;
      }
      Discards(entities, name, current);
      if diff < 0 {
        last := current;
      } else {
        first := current;
      }
    }
    StrcmpZero(name, entities[first].name);
    StrcmpZero(name, entities[last].name);
    if Strcmp(name, entities[first].name) == 0 {
      OnlyAt(entities, name, first);
      val := entities[first].val;
    } else if Strcmp(name, entities[last].name) == 0 {
      OnlyAt(entities, name, last);
      val := entities[last].val;
    } else {
      LookupNone(entities, name);
      val := -1;
    }
  }

  /** The table knows the entities the printer uses. */
  predicate KnowsPredefined(es: seq<Entity>) {
    Lookup(es, S_AMP) == AMP && Lookup(es, S_LT) == LT && Lookup(es, S_GT) == GT && Lookup(es, S_QUOT) == QUOT
  }
}
