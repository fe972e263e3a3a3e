/** What every loaded tree is like, whatever the input. */
module XmlLoaded {
  import opened CString
  import opened Utf8
  import opened XmlEntity
  import opened XmlTree
  import opened XmlPrinter
  import opened XmlParser
  import opened XmlScanning
  import opened XmlRoundTrip
  import opened XmlNormalForm
  import XmlAttrSpec

  /** Distinct names, each with a value. */
  predicate GoodAttrs(attrs: seq<Attr>) {
    XmlAttrSpec.Distinct(attrs) && forall i :: 0 <= i < |attrs| ==> attrs[i].value.Some?
  }

  /** Attributes are a map without NULL values; texts are not empty; opaque texts are not next to each other. */
  predicate Tidy(n: Node)
    decreases n
  {
    match n
    case Opaque(t) => t != []
    case Text(_, t) => t != []
    case Element(_, attrs, children) => GoodAttrs(attrs) && AllTidy(children)
  }

  predicate AllTidy(ns: seq<Node>)
    decreases ns
  {
    && (forall n <- ns :: Tidy(n))
    && forall i :: 0 < i < |ns| ==> !ns[i - 1].Opaque? || !ns[i].Opaque?
  }

  predicate EndsOpaque(ns: seq<Node>) { ns != [] && ns[|ns| - 1].Opaque? }

  /** A tidy tree is in normal form. */
  lemma {:induction false} TidyIsNormal(n: Node)
    requires Tidy(n)
    ensures IsNormal(n)
    decreases n
  {
    if n.Element? {
      forall m | m in n.children ensures IsNormal(m) {
        TidyIsNormal(m);
      }
    }
  }

  // ---- attributes -----------------------------------------------------------------------------

  lemma {:induction false} AbsentName(attrs: seq<Attr>, name: seq<byte>, value: seq<byte>)
    requires GoodAttrs(attrs) && GetAttr(attrs, name) == None
    ensures GoodAttrs(SetAttr(attrs, name, Some(value)))
  {
    XmlAttrSpec.SetKeepsDistinct(attrs, name, Some(value));
    XmlAttrSpec.SetIsPlace(attrs, name, Some(value));
  }

  lemma {:induction false} OneAttrGood(es: seq<Entity>, attrs: seq<Attr>, ch: int, s: seq<byte>)
    requires GoodAttrs(attrs)
    ensures GoodAttrs(OneAttr(es, attrs, ch, s).attrs)
  {
    var n := AttrName(es, ch, s);
    if n.ok && GetAttr(attrs, CStr(n.buf)) == None {
      var e := SkipSpace(n.ch, n.rest);
      if e.ch == EQUALS {
        AbsentName(attrs, CStr(n.buf), CStr(AttrValue(es, e.rest).buf));
      }
    }
  }

  /** mxml_parse_element never sets a name twice and never sets NULL. */
  lemma {:induction false} ParsedAttrsGood(es: seq<Entity>, attrs: seq<Attr>, s: seq<byte>)
    requires GoodAttrs(attrs)
    ensures GoodAttrs(ParseElement(es, attrs, s).attrs)
    decreases |s|
  {
    var g := Getc(s);
    if g.ch != EOF {
      if IsXmlSpace(g.ch) {
        ParsedAttrsGood(es, attrs, g.rest);
      } else if g.ch != SLASH && g.ch != QUESTION && g.ch != LT && g.ch != GT {
        var a := OneAttr(es, attrs, g.ch, g.rest);
        OneAttrGood(es, attrs, g.ch, g.rest);
        ParsedAttrsGood(es, a.attrs, a.rest);
      }
    }
  }

  // ---- the main loop --------------------------------------------------------------------------

  predicate TidyFrame(f: Frame) { GoodAttrs(f.attrs) && AllTidy(f.children) }

  /** What holds behind a flush: everything read so far is tidy. */
  predicate Loose(st: State) {
    (forall n <- st.roots :: Tidy(n)) && forall i :: 0 <= i < |st.stack| ==> TidyFrame(st.stack[i])
  }

  /** What holds in front of every character: besides, no opaque text is waiting for a neighbour. */
  predicate Sound(st: State) {
    Loose(st) && (st.stack != [] ==> !EndsOpaque(st.stack[|st.stack| - 1].children))
  }

  lemma {:induction false} AddNodeKeeps(st: State, n: Node)
    requires Loose(st) && Tidy(n) && (n.Opaque? ==> Sound(st))
    ensures Loose(AddNode(st, n)) && (!n.Opaque? ==> Sound(AddNode(st, n)))
  {
  }

  lemma {:induction false} EnterKeeps(cb: Callback, st: State, name: seq<byte>, attrs: seq<Attr>)
    requires Loose(st) && GoodAttrs(attrs)
    ensures Sound(Enter(cb, st, name, attrs))
  {
  }

  lemma {:induction false} LeaveKeeps(cb: Callback, st: State)
    requires Loose(st) && st.stack != []
    ensures Sound(Leave(cb, st))
  {
    var top := |st.stack| - 1;
    assert TidyFrame(st.stack[top]);
    AddNodeKeeps(st.(stack := st.stack[..top]), Closed(st.stack[top]));
  }

  lemma {:induction false} FlushKeeps(st: State, ch: int)
    requires Sound(st)
    ensures Loose(FlushText(st, ch)) && (ch != LT ==> Sound(FlushText(st, ch)))
  {
    if st.buf != [] {
      AddNodeKeeps(st, if st.mode == OpaqueMode then Opaque(st.buf) else Text(false, st.buf));
    }
  }

  predicate MarkupSound(m: Markup) {
    match m
    case Next(st, _) => Sound(st)
    case Failed => true
    case Stop(st) => Loose(st)
  }

  lemma {:induction false} SpecialKeeps(cb: Callback, st: State, r: Scan, adopts: bool)
    requires Loose(st)
    ensures MarkupSound(AddSpecial(cb, st, r, adopts))
  {
    EnterKeeps(cb, st, r.buf, []);
    AddNodeKeeps(st, Element(r.buf, [], []));
  }

  lemma {:induction false} OpenKeeps(cb: Callback, es: seq<Entity>, st: State, n: Scan)
    requires Loose(st)
    ensures MarkupSound(OpenElement(cb, es, st, n))
  {
    var attrs := if IsXmlSpace(n.ch) then ParseElement(es, [], n.rest).attrs else [];
    ParsedAttrsGood(es, [], n.rest);
    EnterKeeps(cb, st, n.buf, attrs);
    AddNodeKeeps(st, Element(n.buf, attrs, []));
  }

  lemma {:induction false} MarkupKeeps(cb: Callback, es: seq<Entity>, st: State, s: seq<byte>)
    requires Loose(st)
    ensures MarkupSound(ReadMarkup(cb, es, st, s))
  {
    var n := TagName(es, s, []);
    SpecialKeeps(cb, st, RawRest(Comment, n.rest, n.buf), false);
    SpecialKeeps(cb, st, RawRest(Cdata, n.rest, n.buf), false);
    SpecialKeeps(cb, st, RawRest(Instruction, n.rest, n.buf), true);
    SpecialKeeps(cb, st, DeclarationRest(es, n.ch, n.rest, n.buf), true);
    OpenKeeps(cb, es, st, n);
    if st.stack != [] {
      LeaveKeeps(cb, st);
    }
  }

  predicate TidyOutcome(r: Outcome) { r.Loaded? ==> Tidy(r.node) }

  lemma {:induction false} FinishTidy(st: State)
    requires Loose(st)
    ensures TidyOutcome(Finish(st))
  {
  }

  lemma {:induction false} TurnKeeps(cb: Callback, es: seq<Entity>, st: State, ch: int, s: seq<byte>)
    requires Sound(st)
    ensures var t := TurnOn(cb, es, st, ch, s); if t.Again? then Sound(t.st) else TidyOutcome(t.outcome)
  {
    FlushKeeps(st, ch);
    if ch == LT {
      TagKeeps(cb, es, FlushText(st, ch), s);
    }
  }

  lemma {:induction false} TagKeeps(cb: Callback, es: seq<Entity>, st: State, s: seq<byte>)
    requires Loose(st)
    ensures var t := AfterMarkup(ReadMarkup(cb, es, st, s)); if t.Again? then Sound(t.st) else TidyOutcome(t.outcome)
  {
    MarkupKeeps(cb, es, st, s);
    var m := ReadMarkup(cb, es, st, s);
    if m.Stop? {
      FinishTidy(m.st);
    }
  }

  lemma {:induction false} LoopTidy(cb: Callback, es: seq<Entity>, st: State, s: seq<byte>)
    requires Sound(st)
    ensures TidyOutcome(Loop(cb, es, st, s))
    decreases |s|
  {
    var g := Getc(s);
    FinishTidy(st);
    if g.ch != EOF {
      TurnKeeps(cb, es, st, g.ch, g.rest);
      var t := TurnOn(cb, es, st, g.ch, g.rest);
      if t.Again? {
        LoopTidy(cb, es, t.st, t.rest);
      }
    }
  }

  /** Whatever the bytes, the table and the callback: a tree that is loaded has distinct attribute names with
      values, no empty text and no two opaque texts next to each other. */
  lemma {:induction false} LoadedIsTidy(cb: Callback, es: seq<Entity>, s: seq<byte>)
    ensures var r := Load(cb, es, s); r.Loaded? ==> Tidy(r.node) && IsNormal(r.node)
  {
    LoopTidy(cb, es, INIT, s);
    var r := Load(cb, es, s);
    if r.Loaded? {
      TidyIsNormal(r.node);
    }
  }

  /** A loaded tree survives saving and loading unchanged exactly if U+FEFF occurs in none of its texts and values,
      into which it gets by a numeric reference. That holds for trees of plain names, with texts and values that
      are encodings of readable characters. */
  lemma {:induction false} LoadSaveLoad(es: seq<Entity>, s: seq<byte>, wrap: int)
    requires KnowsPredefined(es)
    ensures var r := Load(OpaqueCallback, es, s);
            r.Loaded? && r.node.Element? && !IsSpecial(r.node.name) && Regular(r.node) ==>
              (Load(OpaqueCallback, es, Print([r.node], wrap)) == r <==> NoMarks(r.node))
  {
    var r := Load(OpaqueCallback, es, s);
    LoadedIsTidy(OpaqueCallback, es, s);
    if r.Loaded? && r.node.Element? && !IsSpecial(r.node.name) && Regular(r.node) {
      SurvivesExactly(es, r.node, wrap);
    }
  }
}

/** Saving a tree of the heap and loading the text again. */
module XmlCopy {
  import opened CString
  import opened XmlEntity
  import XmlTree
  import opened XmlPrinter
  import XmlParser
  import opened XmlNulFree
  import opened XmlRoundTrip
  import opened XmlForest
  import opened XmlWalk
  import opened XmlContent
  import opened XmlBuilder
  import XmlSaver
  import XmlLoading
  import XmlUnset

  /** A root is written alone. */
  lemma {:induction false} RootAlone(f: Forest, vals: map<Node, Value>, root: Node)
    requires WellFormed(f) && vals.Keys == f.kids.Keys && root in f.kids && root !in f.up
    ensures TreesOnwards(f, vals, root) == [TreeOf(f, vals, root)]
  {
  }

  /** What is saved is loaded as a new tree that holds the normal form of the first one, which stays as it was. */
  method SaveAndLoad(es: seq<Entity>, root: Node, wrap: int, ghost vals: map<Node, Value>, ghost f: Forest)
    returns (copy: Node?, ghost vals': map<Node, Value>, ghost g: Forest)
    requires es != [] && Sorted(es) && KnowsPredefined(es)
    requires Linked(f) && Knows(vals, f) && root in f.kids && root !in f.up
    requires var t := TreeOf(f, vals, root); t.Element? && !IsSpecial(t.name) && Regular(t) && CStrings([t])
    ensures Linked(g) && Knows(vals', g) && fresh(g.kids.Keys)
    ensures copy != null && copy in g.kids && copy !in g.up
    ensures TreeOf(g, vals', copy) == Normal(XmlParser.OpaqueCallback, Unmarked(TreeOf(f, vals, root)))
  {
    ghost var t := TreeOf(f, vals, root);
    RootAlone(f, vals, root);
    var s := XmlSaver.SaveAllocString(root, wrap, [t], vals, f);
    SaveThenLoad(XmlParser.OpaqueCallback, es, t, wrap);
    var lost;
    lost, copy, vals', g := XmlLoading.LoadData(XmlParser.OpaqueCallback, es, s);
    XmlUnset.LostExactly(XmlParser.OpaqueCallback, es, s);
  }
}
