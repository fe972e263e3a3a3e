/** Loading without a callback, as the client does: texts become single words. */
module XmlWords {
  import opened CString
  import opened Utf8
  import opened XmlEntity
  import opened XmlTree
  import opened XmlPrinter
  import opened XmlParser
  import opened XmlScanning
  import opened XmlRoundTrip

  // ---- what every tree is like ----------------------------------------------------------------

  /** No opaque text; words that are not empty, without white space in front, and never two next to each other. */
  predicate Worded(n: Node)
    decreases n
  {
    match n
    case Opaque(_) => false
    case Text(space, w) => !space && w != []
    case Element(_, _, children) => AllWorded(children)
  }

  predicate AllWorded(ns: seq<Node>)
    decreases ns
  {
    && (forall n <- ns :: Worded(n))
    && forall i :: 0 < i < |ns| ==> !ns[i - 1].Text? || !ns[i].Text?
  }

  predicate EndsInWord(ns: seq<Node>) { ns != [] && ns[|ns| - 1].Text? }

  /** The nodes the next one would join. */
  function Siblings(st: State): seq<Node> {
    if st.stack == [] then st.roots else st.stack[|st.stack| - 1].children
  }

  predicate Parts(st: State) {
    && st.mode == TextMode && AllWorded(st.roots)
    && forall i :: 0 <= i < |st.stack| ==> AllWorded(st.stack[i].children)
  }

  /** What holds in front of every character: behind a word there is white space until the next tag. */
  predicate Wordy(st: State) { Parts(st) && (EndsInWord(Siblings(st)) ==> st.whitespace) }

  lemma {:induction false} AddKeeps(st: State, n: Node)
    requires Parts(st) && Worded(n) && (n.Text? ==> !EndsInWord(Siblings(st)))
    ensures Parts(AddNode(st, n)) && (EndsInWord(Siblings(AddNode(st, n))) <==> n.Text?)
  {
    AppendWorded(Siblings(st), n);
  }

  lemma {:induction false} AppendWorded(ns: seq<Node>, n: Node)
    requires AllWorded(ns) && Worded(n) && (n.Text? ==> !EndsInWord(ns))
    ensures AllWorded(ns + [n])
  {
    forall i | 0 < i < |ns + [n]| ensures !(ns + [n])[i - 1].Text? || !(ns + [n])[i].Text? {
      if i < |ns| {
        assert (ns + [n])[i - 1] == ns[i - 1] && (ns + [n])[i] == ns[i];
      }
    }
  }

  lemma {:induction false} FlushKeeps(st: State, ch: int)
    requires Wordy(st)
    ensures Parts(FlushText(st, ch)) && (ch != LT ==> Wordy(FlushText(st, ch)))
  {
    if st.buf != [] && !st.whitespace {
      AddKeeps(st, Text(false, st.buf));
    }
  }

  predicate MarkupWordy(m: Markup) {
    match m
    case Next(st, _) => Parts(st) && !EndsInWord(Siblings(st))
    case Failed => true
    case Stop(st) => Parts(st)
  }

  lemma {:induction false} EnterKeeps(st: State, name: seq<byte>, attrs: seq<Attr>)
    requires Parts(st)
    ensures var t := Enter(NoCallback, st, name, attrs); Parts(t) && !EndsInWord(Siblings(t))
  {
  }

  lemma {:induction false} LeaveKeeps(st: State)
    requires Parts(st) && st.stack != []
    ensures var t := Leave(NoCallback, st); Parts(t) && !EndsInWord(Siblings(t))
  {
    var top := |st.stack| - 1;
    assert AllWorded(st.stack[top].children);
    AddKeeps(st.(stack := st.stack[..top]), Closed(st.stack[top]));
  }

  lemma {:induction false} MarkupKeeps(es: seq<Entity>, st: State, s: seq<byte>)
    requires Parts(st)
    ensures MarkupWordy(ReadMarkup(NoCallback, es, st, s))
  {
    var n := TagName(es, s, []);
    SpecialKeeps(st, RawRest(Comment, n.rest, n.buf), false);
    SpecialKeeps(st, RawRest(Cdata, n.rest, n.buf), false);
    SpecialKeeps(st, RawRest(Instruction, n.rest, n.buf), true);
    SpecialKeeps(st, DeclarationRest(es, n.ch, n.rest, n.buf), true);
    OpenKeeps(es, st, n);
    if st.stack != [] {
      LeaveKeeps(st);
    }
  }

  lemma {:induction false} SpecialKeeps(st: State, r: Scan, adopts: bool)
    requires Parts(st)
    ensures MarkupWordy(AddSpecial(NoCallback, st, r, adopts))
  {
    EnterKeeps(st, r.buf, []);
    AddKeeps(st, Element(r.buf, [], []));
  }

  lemma {:induction false} OpenKeeps(es: seq<Entity>, st: State, n: Scan)
    requires Parts(st)
    ensures MarkupWordy(OpenElement(NoCallback, es, st, n))
  {
    var attrs := if IsXmlSpace(n.ch) then ParseElement(es, [], n.rest).attrs else [];
    EnterKeeps(st, n.buf, attrs);
    AddKeeps(st, Element(n.buf, attrs, []));
  }

  predicate WordedOutcome(r: Outcome) { r.Loaded? ==> Worded(r.node) }

  lemma {:induction false} FinishWorded(st: State)
    requires Parts(st)
    ensures WordedOutcome(Finish(st))
  {
  }

  lemma {:induction false} TagKeeps(es: seq<Entity>, st: State, s: seq<byte>)
    requires Parts(st)
    ensures var t := AfterMarkup(ReadMarkup(NoCallback, es, st, s));
            if t.Again? then Wordy(t.st) else WordedOutcome(t.outcome)
  {
    MarkupKeeps(es, st, s);
    var m := ReadMarkup(NoCallback, es, st, s);
    if m.Stop? {
      FinishWorded(m.st);
    }
  }

  lemma {:induction false} TurnKeeps(es: seq<Entity>, st: State, ch: int, s: seq<byte>)
    requires Wordy(st)
    ensures var t := TurnOn(NoCallback, es, st, ch, s); if t.Again? then Wordy(t.st) else WordedOutcome(t.outcome)
  {
    FlushKeeps(st, ch);
    if ch == LT {
      TagKeeps(es, FlushText(st, ch), s);
    }
  }

  lemma {:induction false} LoopWorded(es: seq<Entity>, st: State, s: seq<byte>)
    requires Wordy(st)
    ensures WordedOutcome(Loop(NoCallback, es, st, s))
    decreases |s|
  {
    var g := Getc(s);
    FinishWorded(st);
    if g.ch != EOF {
      TurnKeeps(es, st, g.ch, g.rest);
      var t := TurnOn(NoCallback, es, st, g.ch, g.rest);
      if t.Again? {
        LoopWorded(es, t.st, t.rest);
      }
    }
  }

  /** Whatever the bytes and the table: a tree that is loaded without a callback holds no opaque text. Its texts are
      words, marked as having no white space in front, and never two next to each other. */
  lemma {:induction false} LoadedIsWorded(es: seq<Entity>, s: seq<byte>)
    ensures var r := Load(NoCallback, es, s); r.Loaded? ==> Worded(r.node)
  {
    LoopWorded(es, INIT, s);
  }

  // ---- between two tags -----------------------------------------------------------------------

  /** Where the next tag starts; or the input ends, or a reference in front of it cannot be read. */
  datatype Gap = AtTag(rest: seq<byte>) | AtEnd | BadReference

  function GapEnd(es: seq<Entity>, s: seq<byte>): (g: Gap)
    ensures g.AtTag? ==> Getc(g.rest).ch == LT
    decreases |s|
  {
    var g := Getc(s);
    if g.ch == EOF then AtEnd
    else if g.ch == LT then AtTag(s)
    else if g.ch == AMP then
      var e := GetEntity(es, g.rest);
      if e.ch == EOF then BadReference else GapEnd(es, e.rest)
    else GapEnd(es, g.rest)
  }

  /** The characters in front of the first white space or tag, references replaced. */
  function WordAt(es: seq<Entity>, s: seq<byte>): seq<byte>
    decreases |s|
  {
    var g := Getc(s);
    if g.ch == EOF || g.ch == LT || IsXmlSpace(g.ch) then []
    else if g.ch == AMP then
      var e := GetEntity(es, g.rest);
      if e.ch == EOF then [] else Encode(e.ch) + WordAt(es, e.rest)
    else Encode(g.ch) + WordAt(es, g.rest)
  }

  /** White space ends that word. */
  predicate EndedBySpace(es: seq<Entity>, s: seq<byte>)
    decreases |s|
  {
    var g := Getc(s);
    if IsXmlSpace(g.ch) then true
    else if g.ch == EOF || g.ch == LT then false
    else if g.ch == AMP then
      var e := GetEntity(es, g.rest);
      e.ch != EOF && EndedBySpace(es, e.rest)
    else EndedBySpace(es, g.rest)
  }

  /** The state once a word between tags is complete, or without one. */
  function WithWord(st: State, word: seq<byte>): State {
    if word == [] then st else AddNode(st, Text(false, word))
  }

  /** Behind a tag, without a callback. */
  predicate BehindTag(st: State) { st.mode == TextMode && st.buf == [] && !st.whitespace && st.nodeSet }

  /** One turn for a character between tags, word being what is in the buffer. */
  lemma {:induction false} GapTurn(es: seq<Entity>, st: State, word: seq<byte>, space: bool, ch: int, s: seq<byte>)
    requires BehindTag(st) && ch != LT
    ensures var t := TurnOn(NoCallback, es, st.(buf := word, whitespace := space), ch, s);
            var done := if word != [] && !space then AddNode(st, Text(false, word)) else st;
            if IsXmlSpace(ch) then t == Again(done.(buf := [], whitespace := true), s)
            else if ch == AMP then
              var e := GetEntity(es, s);
              t == if e.ch == EOF then Done(Null)
                   else Again(st.(buf := word + Encode(e.ch), whitespace := space), e.rest)
            else t == Again(st.(buf := word + Encode(ch), whitespace := space), s)
  {
  }

  lemma {:induction false} TagTurn(cb: Callback, es: seq<Entity>, st: State, word: seq<byte>, space: bool, s: seq<byte>)
    requires BehindTag(st) && Getc(s).ch == LT
    ensures Loop(cb, es, st.(buf := word, whitespace := space), s)
            == Loop(cb, es, if space then st else WithWord(st, word), s)
  {
  }

  /** Behind white space nothing becomes a node up to the next tag. */
  lemma {:induction false} NothingMore(es: seq<Entity>, st: State, word: seq<byte>, s: seq<byte>)
    requires BehindTag(st)
    ensures Loop(NoCallback, es, st.(buf := word, whitespace := true), s)
            == match GapEnd(es, s)
               case AtTag(rest) => Loop(NoCallback, es, st, rest)
               case AtEnd => Finish(st)
               case BadReference => Null
    decreases |s|
  {
    var g := Getc(s);
    if g.ch == LT {
      TagTurn(NoCallback, es, st, word, true, s);
    } else if g.ch != EOF {
      GapTurn(es, st, word, true, g.ch, g.rest);
      if IsXmlSpace(g.ch) {
        NothingMore(es, st, [], g.rest);
      } else if g.ch == AMP {
        var e := GetEntity(es, g.rest);
        NothingMore(es, st, word + Encode(e.ch), e.rest);
      } else {
        NothingMore(es, st, word + Encode(g.ch), g.rest);
      }
    }
  }

  lemma {:induction false} WordOnly(es: seq<Entity>, st: State, word: seq<byte>, s: seq<byte>)
    requires BehindTag(st)
    ensures var all := word + WordAt(es, s);
            Loop(NoCallback, es, st.(buf := word), s)
            == match GapEnd(es, s)
               case AtTag(rest) => Loop(NoCallback, es, WithWord(st, all), rest)
               case AtEnd => Finish(if EndedBySpace(es, s) then WithWord(st, all) else st)
               case BadReference => Null
    decreases |s|
  {
    var g := Getc(s);
    if g.ch == EOF || g.ch == LT || IsXmlSpace(g.ch) {
      assert word + WordAt(es, s) == word;
    }
    if g.ch == LT {
      TagTurn(NoCallback, es, st, word, false, s);
    } else if g.ch != EOF {
      GapTurn(es, st, word, false, g.ch, g.rest);
      if IsXmlSpace(g.ch) {
        NothingMore(es, WithWord(st, word), [], g.rest);
      } else if g.ch == AMP {
        var e := GetEntity(es, g.rest);
        if e.ch != EOF {
          Associative(word, Encode(e.ch), WordAt(es, e.rest));
          WordOnly(es, st, word + Encode(e.ch), e.rest);
        }
      } else {
        Associative(word, Encode(g.ch), WordAt(es, g.rest));
        WordOnly(es, st, word + Encode(g.ch), g.rest);
      }
    }
  }

  /** Between two tags, whatever stands there: the first word becomes a text node exactly if no white space is in front
      of it, and nothing else becomes a node. At the end of the input the word has to be ended by white space. */
  lemma {:induction false} BetweenTags(es: seq<Entity>, st: State, s: seq<byte>)
    requires BehindTag(st)
    ensures Loop(NoCallback, es, st, s)
            == match GapEnd(es, s)
               case AtTag(rest) => Loop(NoCallback, es, WithWord(st, WordAt(es, s)), rest)
               case AtEnd => Finish(if EndedBySpace(es, s) then WithWord(st, WordAt(es, s)) else st)
               case BadReference => Null
  {
    WordOnly(es, st, [], s);
    assert [] + WordAt(es, s) == WordAt(es, s);
  }

  // ---- an element with a word -----------------------------------------------------------------

  /** The text of an element that holds one word: what the client's replies consist of. */
  function WordElement(name: seq<byte>, word: seq<byte>): seq<byte> {
    [60] + name + [62] + Escape(word) + [60, 47] + name + [62]
  }

  lemma {:induction false} WordElementIsPrinted(name: seq<byte>, word: seq<byte>)
    requires PlainName(name) && !IsSpecial(name)
    ensures NodeBytes(Element(name, [], [Opaque(word)]), 0, 0) == WordElement(name, word)
  {
    var n := Element(name, [], [Opaque(word)]);
    NoAttrsOpen(n, 0);
    OnlyWord(word, OpenCol(n, 0, 0) + 1);
    EscapePlain(name);
    WordTail(n, Escape(word));
    var w := Escape(word);
    Associative([60] + name, [62] + w, [60, 47] + name + [62]);
    Associative([60] + name, [62], w);
    Associative([60] + name + [62] + w, [60, 47] + name, [62]);
    Associative([60] + name + [62] + w, [60, 47], name);
  }

  lemma {:induction false} NoAttrsOpen(n: Node, col: nat)
    requires n.Element? && n.attrs == [] && PlainName(n.name)
    ensures OpenTag(n, col, 0) == [60] + n.name
  {
    assert NameBytes(n.name) == n.name && TagBytes(n.name) == n.name;
  }

  lemma {:induction false} OnlyWord(word: seq<byte>, col: nat)
    ensures NodesBytes([Opaque(word)], col, 0) == Escape(word)
  {
    assert [Opaque(word)][1..] == [] && Escape(word) + [] == Escape(word);
  }

  lemma {:induction false} WordTail(n: Node, inner: seq<byte>)
    requires n.Element? && n.children != [] && !IsSpecial(n.name) && Escape(n.name) == n.name
    requires inner == NodesBytes(n.children, OpenCol(n, 0, 0) + 1, 0)
    ensures TailBytes(n, 0, 0) == [62] + inner + ([60, 47] + n.name + [62])
  {
  }

  /** <name>word</name> is read as an element with that word as its text, for every word without white space. */
  lemma {:induction false} WordElementIsRead(es: seq<Entity>, name: seq<byte>, cs: seq<int>)
    requires KnowsPredefined(es) && PlainName(name) && !IsSpecial(name)
    requires cs != [] && AllAllowed(cs) && forall i :: 0 <= i < |cs| ==> !IsXmlSpace(cs[i])
    ensures var word := EncodeAll(cs);
            Load(NoCallback, es, WordElement(name, word)) == Loaded(Element(name, [], [Text(false, word)]))
  {
    var word := EncodeAll(cs);
    var n := Element(name, [], [Opaque(word)]);
    WordElementIsPrinted(name, word);
    AllowedIsText(cs);
    NoSpaceInAll(cs);
    FirstOfOne(word);
    assert NodeBytes(n, 0, 0) + [] == NodeBytes(n, 0, 0);
    ElementRun(NoCallback, es, INIT, n, 0, 0, []);
    WordNormal(name, word);
  }

  lemma {:induction false} WordNormal(name: seq<byte>, word: seq<byte>)
    requires word != [] && FirstWord(word) == word && Unmark(word) == word
    ensures Normal(NoCallback, Unmarked(Element(name, [], [Opaque(word)]))) == Element(name, [], [Text(false, word)])
  {
    var ns := [Opaque(word)];
    assert ns[1..] == [] && UnmarkedAll(ns) == ns;
    assert [] + word == word;
    assert AbsorbAll(NoCallback, Kids([], []), ns) == Kids([], word);
    assert [] + WordNode(word) == WordNode(word);
  }

  lemma {:induction false} NoSpaceInAll(cs: seq<int>)
    requires AllAllowed(cs) && forall i :: 0 <= i < |cs| ==> !IsXmlSpace(cs[i])
    ensures forall i :: 0 <= i < |EncodeAll(cs)| ==> !IsXmlSpace(EncodeAll(cs)[i])
    decreases |cs|
  {
    if cs != [] {
      NoSpaceIn(cs[0]);
      NoSpaceInAll(cs[1..]);
    }
  }

  lemma {:induction false} AllowedIsText(cs: seq<int>)
    requires AllAllowed(cs)
    ensures IsText(EncodeAll(cs)) && Unmark(EncodeAll(cs)) == EncodeAll(cs)
    decreases |cs|
  {
    assert IsTextOf(EncodeAll(cs), cs);
    if cs != [] {
      AllowedIsText(cs[1..]);
      UnmarkKeeps(cs[0], EncodeAll(cs[1..]));
    }
  }
}
