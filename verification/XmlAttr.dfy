/** jni/xml/mxml-attr.c: the attributes of an element, a finite map that keeps its order, on an array. */
module XmlAttrSpec {
  import opened CString
  import opened XmlTree

  predicate Distinct(attrs: seq<Attr>) {
    forall i, j :: 0 <= i < j < |attrs| ==> attrs[i].name != attrs[j].name
  }

  /** Position of the first attribute with that name, or |attrs|. */
  function Where(attrs: seq<Attr>, name: seq<byte>): (i: nat)
    ensures i <= |attrs|
  {
    if attrs == [] || attrs[0].name == name then 0 else 1 + Where(attrs[1..], name)
  }

  lemma {:induction false} WhereIsFirst(attrs: seq<Attr>, name: seq<byte>, k: nat)
    requires k <= |attrs| && (k < |attrs| ==> attrs[k].name == name)
    requires forall i :: 0 <= i < k ==> attrs[i].name != name
    ensures Where(attrs, name) == k
    decreases |attrs|
  {
    if k > 0 {
      WhereIsFirst(attrs[1..], name, k - 1);
    }
  }

  /** mxmlElementDeleteAttr */
  function DeleteAttr(attrs: seq<Attr>, name: seq<byte>): seq<Attr> {
    var i := Where(attrs, name);
    if i == |attrs| then attrs else attrs[..i] + attrs[i + 1..]
  }

  function Names(attrs: seq<Attr>): seq<seq<byte>> {
    if attrs == [] then [] else [attrs[0].name] + Names(attrs[1..])
  }

  /** mxml_set_attr writes at the place of the name, or behind the last attribute. */
  lemma {:induction false} SetIsPlace(attrs: seq<Attr>, name: seq<byte>, value: Option<seq<byte>>)
    ensures var i := Where(attrs, name);
            SetAttr(attrs, name, value)
            == if i == |attrs| then attrs + [Attr(name, value)] else attrs[i := Attr(name, value)]
    decreases |attrs|
  {
    if attrs != [] && attrs[0].name != name {
      SetIsPlace(attrs[1..], name, value);
      assert attrs == [attrs[0]] + attrs[1..];
    }
  }

  lemma {:induction false} GetIsPlace(attrs: seq<Attr>, name: seq<byte>)
    ensures var i := Where(attrs, name); GetAttr(attrs, name) == if i == |attrs| then None else attrs[i].value
    decreases |attrs|
  {
    if attrs != [] && attrs[0].name != name {
      GetIsPlace(attrs[1..], name);
    }
  }

  /** Setting an attribute changes what is read under that name, and nothing else. */
  lemma {:induction false} GetAfterSet(attrs: seq<Attr>, name: seq<byte>, value: Option<seq<byte>>, other: seq<byte>)
    ensures GetAttr(SetAttr(attrs, name, value), other) == if other == name then value else GetAttr(attrs, other)
    decreases |attrs|
  {
    if attrs != [] && attrs[0].name != name {
      GetAfterSet(attrs[1..], name, value, other);
    }
  }

  /** A new name goes behind the others, a known one keeps its place. */
  lemma {:induction false} SetKeepsOrder(attrs: seq<Attr>, name: seq<byte>, value: Option<seq<byte>>)
    ensures Names(SetAttr(attrs, name, value)) == Names(attrs) + if Where(attrs, name) == |attrs| then [name] else []
    decreases |attrs|
  {
    if attrs != [] {
      if attrs[0].name == name {
        assert SetAttr(attrs, name, value)[1..] == attrs[1..];
      } else {
        SetKeepsOrder(attrs[1..], name, value);
        assert SetAttr(attrs, name, value)[1..] == SetAttr(attrs[1..], name, value);
      }
    }
  }

  /** Names stay distinct. */
  lemma {:induction false} SetKeepsDistinct(attrs: seq<Attr>, name: seq<byte>, value: Option<seq<byte>>)
    requires Distinct(attrs)
    ensures Distinct(SetAttr(attrs, name, value))
  {
    SetIsPlace(attrs, name, value);
    WhereMisses(attrs, name);
  }

  lemma {:induction false} WhereMisses(attrs: seq<Attr>, name: seq<byte>)
    ensures var w := Where(attrs, name);
            (w < |attrs| ==> attrs[w].name == name) && forall i :: 0 <= i < w ==> attrs[i].name != name
    decreases |attrs|
  {
    if attrs != [] && attrs[0].name != name {
      WhereMisses(attrs[1..], name);
    }
  }

  /** With distinct names, a deleted attribute is gone, and the others are what they were. */
  lemma {:induction false} GetAfterDelete(attrs: seq<Attr>, name: seq<byte>, other: seq<byte>)
    requires Distinct(attrs)
    ensures Distinct(DeleteAttr(attrs, name))
    ensures GetAttr(DeleteAttr(attrs, name), other) == if other == name then None else GetAttr(attrs, other)
    decreases |attrs|
  {
    if attrs != [] {
      if attrs[0].name == name {
        assert DeleteAttr(attrs, name) == attrs[1..];
        Absent(attrs[1..], name);
      } else {
        GetAfterDelete(attrs[1..], name, other);
        DeleteFromTail(attrs, name);
        StillDistinct(attrs, name);
      }
    }
  }

  lemma {:induction false} DeleteFromTail(attrs: seq<Attr>, name: seq<byte>)
    requires attrs != [] && attrs[0].name != name
    ensures DeleteAttr(attrs, name) == [attrs[0]] + DeleteAttr(attrs[1..], name)
  {
    var a, rest := attrs[0], attrs[1..];
    var i := Where(rest, name);
    assert attrs == [a] + rest && Where(attrs, name) == i + 1;
    if i < |rest| {
      assert attrs[..i + 1] == [a] + rest[..i] && attrs[i + 2..] == rest[i + 1..];
      Associative([a], rest[..i], rest[i + 1..]);
    }
  }

  lemma {:induction false} StillDistinct(attrs: seq<Attr>, name: seq<byte>)
    requires Distinct(attrs)
    ensures Distinct(DeleteAttr(attrs, name))
  {
  }

  lemma {:induction false} Absent(attrs: seq<Attr>, name: seq<byte>)
    requires forall i :: 0 <= i < |attrs| ==> attrs[i].name != name
    ensures GetAttr(attrs, name) == None && Where(attrs, name) == |attrs|
    decreases |attrs|
  {
    if attrs != [] {
      Absent(attrs[1..], name);
    }
  }

  /** Deleting an attribute that was new undoes setting it. */
  lemma {:induction false} DeleteUndoesSet(attrs: seq<Attr>, name: seq<byte>, value: Option<seq<byte>>)
    requires Where(attrs, name) == |attrs|
    ensures DeleteAttr(SetAttr(attrs, name, value), name) == attrs
    decreases |attrs|
  {
    if attrs != [] {
      var t := SetAttr(attrs, name, value);
      DeleteUndoesSet(attrs[1..], name, value);
      assert attrs == [attrs[0]] + attrs[1..];
      assert t[0] == attrs[0] && t[1..] == SetAttr(attrs[1..], name, value);
      DeleteFromTail(t, name);
    }
  }
}

/** The array, as it is searched, extended and shifted. */
module XmlAttr {
  import opened CString
  import opened XmlTree
  import opened XmlAttrSpec

  class Attributes {
    var attrs: array<Attr>
    var num_attrs: nat

    ghost predicate Valid()
      reads this
    {
      num_attrs <= attrs.Length
    }

    ghost function Contents(): seq<Attr>
      reads this, attrs
      requires Valid()
    {
      attrs[..num_attrs]
    }

    constructor ()
      ensures Valid() && Contents() == [] && fresh(attrs)
    {
      attrs := new Attr[0];
      num_attrs := 0;
    }

    /** The search all functions begin with */
    method Search(name: seq<byte>) returns (i: nat)
      requires Valid()
      ensures i == Where(Contents(), name) <= num_attrs
      ensures i < num_attrs ==> attrs[i].name == name
    {
      i := 0;
      while i < num_attrs && attrs[i].name != name
        invariant i <= num_attrs && forall k :: 0 <= k < i ==> attrs[k].name != name
      {
        i := i + 1;
      }
      WhereIsFirst(Contents(), name, i);
    }

    /** mxmlElementGetAttr */
    method Get(name: seq<byte>) returns (value: Option<seq<byte>>)
      requires Valid()
      ensures value == GetAttr(Contents(), name)
    {
      var i := Search(name);
      GetIsPlace(Contents(), name);
      value := if i < num_attrs then attrs[i].value else None;
    }

    /** mxml_set_attr */
    method Set(name: seq<byte>, value: Option<seq<byte>>)
      requires Valid()
      modifies this, attrs
      ensures Valid() && (attrs == old(attrs) || fresh(attrs))
      ensures Contents() == SetAttr(old(Contents()), name, value)
    {
      ghost var before := Contents();
      var i := Search(name);
      SetIsPlace(before, name, value);
      if i < num_attrs {
        attrs[i] := Attr(name, value);
        assert Contents() == before[i := Attr(name, value)];
      } else {
        Append(Attr(name, value));
      }
    }

    /** realloc for one more attribute */
    method Append(a: Attr)
      requires Valid()
      modifies this
      ensures Valid() && fresh(attrs) && Contents() == old(Contents()) + [a]
    {
      var more := new Attr[num_attrs + 1](_ => a);
      forall k | 0 <= k < num_attrs {
        more[k] := attrs[k];
      }
      assert more[..num_attrs] == attrs[..num_attrs];
      attrs := more;
      num_attrs := num_attrs + 1;
      assert attrs[..num_attrs] == attrs[..num_attrs - 1] + [a];
    }

    /** mxmlElementDeleteAttr */
    method Delete(name: seq<byte>)
      requires Valid()
      modifies this`num_attrs, attrs
      ensures Valid() && Contents() == DeleteAttr(old(Contents()), name)
    {
      ghost var before := Contents();
      var i := Search(name);
      if i < num_attrs {
        forall k | i <= k < num_attrs - 1 {
          attrs[k] := attrs[k + 1];
        }
        num_attrs := num_attrs - 1;
        assert Contents() == before[..i] + before[i + 1..];
      }
    }
  }
}
