/** When mxml_load_data follows `node` before that pointer has ever been assigned. */
module XmlUnset {
  import opened CString
  import opened Utf8
  import opened XmlEntity
  import opened XmlPrinter
  import opened XmlParser

  /** Characters and readable references run on to white space or a <. */
  predicate WordEnds(es: seq<Entity>, s: seq<byte>)
    decreases |s|
  {
    var g := Getc(s);
    if g.ch == EOF then false
    else if g.ch == LT || IsXmlSpace(g.ch) then true
    else if g.ch == AMP then
      var e := GetEntity(es, g.rest);
      e.ch != EOF && WordEnds(es, e.rest)
    else WordEnds(es, g.rest)
  }

  /** Behind more white space, or none, a word that ends. */
  predicate WordFollows(es: seq<Entity>, s: seq<byte>)
    decreases |s|
  {
    var g := Getc(s);
    if IsXmlSpace(g.ch) then WordFollows(es, g.rest)
    else g.ch != EOF && g.ch != LT && WordEnds(es, s)
  }

  /** The text starts with white space, and what comes first behind it is a word that ends, not a tag. */
  predicate StartsWithWord(es: seq<Entity>, s: seq<byte>) {
    IsXmlSpace(Getc(s).ch) && WordFollows(es, Getc(s).rest)
  }

  /** Once a node has been made the pointer is set for good. */
  lemma {:induction false} MarkupSets(cb: Callback, es: seq<Entity>, st: State, s: seq<byte>)
    ensures var m := ReadMarkup(cb, es, st, s); m.Next? ==> m.st.nodeSet
  {
    var n := TagName(es, s, []);
    if n.ok && n.buf != [] && n.buf[0] == SLASH && st.stack != [] {
      LeaveSets(cb, st);
    }
  }

  lemma {:induction false} LeaveSets(cb: Callback, st: State)
    requires st.stack != []
    ensures Leave(cb, st).nodeSet
  {
  }

  lemma {:induction false} TagTurnSets(cb: Callback, es: seq<Entity>, st: State, s: seq<byte>)
    ensures match TurnFlushed(cb, es, st, LT, s)
            case Again(st', _) => st'.nodeSet
            case Done(outcome) => outcome != Undefined
  {
    MarkupSets(cb, es, st, s);
  }

  lemma {:induction false} TurnKeepsSet(cb: Callback, es: seq<Entity>, st: State, ch: int, s: seq<byte>)
    requires st.nodeSet
    ensures match TurnOn(cb, es, st, ch, s)
            case Again(st', _) => st'.nodeSet
            case Done(outcome) => outcome != Undefined
  {
    if ch == LT {
      TagTurnSets(cb, es, FlushText(st, ch), s);
    }
  }

  lemma {:induction false} SetStaysDefined(cb: Callback, es: seq<Entity>, st: State, s: seq<byte>)
    requires st.nodeSet
    ensures Loop(cb, es, st, s) != Undefined
    decreases |s|
  {
    var g := Getc(s);
    if g.ch != EOF {
      TurnKeepsSet(cb, es, st, g.ch, g.rest);
      match TurnOn(cb, es, st, g.ch, g.rest)
      case Again(st', rest) => SetStaysDefined(cb, es, st', rest);
      case Done(outcome) =>
    }
  }

  /** The states in which no node has been made yet. */
  function Early(text: seq<byte>, whitespace: bool): State { State([], [], text, TextMode, whitespace, false) }

  /** A turn in such a state, a word being gathered: lost, over for the pointer, or one character more. */
  lemma {:induction false} WordTurn(cb: Callback, es: seq<Entity>, text: seq<byte>, ws: bool, ch: int, s: seq<byte>)
    requires text != []
    ensures var t, ends := TurnOn(cb, es, Early(text, ws), ch, s), ch == LT || IsXmlSpace(ch);
            && (t == Done(Undefined) <==> ends && ws)
            && (ends && !ws && t.Again? ==> t.st.nodeSet)
            && (!ends && ch != AMP ==> t == Again(Early(text + Encode(ch), ws), s))
            && (!ends && ch == AMP ==>
                var e := GetEntity(es, s);
                t == if e.ch == EOF then Done(Null) else Again(Early(text + Encode(e.ch), ws), e.rest))
  {
    var st := Early(text, ws);
    if ch == LT && !ws {
      TagTurnSets(cb, es, FlushText(st, ch), s);
    }
  }

  lemma {:induction false} WordRun(cb: Callback, es: seq<Entity>, text: seq<byte>, ws: bool, s: seq<byte>)
    requires text != []
    ensures Loop(cb, es, Early(text, ws), s) == Undefined <==> ws && WordEnds(es, s)
    decreases |s|
  {
    var g := Getc(s);
    if g.ch != EOF {
      WordTurn(cb, es, text, ws, g.ch, g.rest);
      match TurnOn(cb, es, Early(text, ws), g.ch, g.rest)
      case Again(st', rest) =>
        if st'.nodeSet {
          SetStaysDefined(cb, es, st', rest);
        } else {
          WordRun(cb, es, st'.buf, ws, rest);
        }
      case Done(outcome) =>
    }
  }

  /** A turn with nothing gathered. */
  lemma {:induction false} FirstTurn(cb: Callback, es: seq<Entity>, ws: bool, ch: int, s: seq<byte>)
    ensures var t := TurnOn(cb, es, Early([], ws), ch, s);
            && t != Done(Undefined)
            && (ch == LT && t.Again? ==> t.st.nodeSet)
            && (IsXmlSpace(ch) ==> t == Again(Early([], true), s))
            && (ch != LT && !IsXmlSpace(ch) && ch != AMP ==> t == Again(Early(Encode(ch), ws), s))
            && (ch == AMP ==>
                var e := GetEntity(es, s);
                t == if e.ch == EOF then Done(Null) else Again(Early(Encode(e.ch), ws), e.rest))
  {
    if ch == LT {
      TagTurnSets(cb, es, FlushText(Early([], ws), ch), s);
    }
    assert forall code: int :: [] + Encode(code) == Encode(code);
  }

  lemma {:induction false} FirstRun(cb: Callback, es: seq<Entity>, ws: bool, s: seq<byte>)
    ensures Loop(cb, es, Early([], ws), s) == Undefined <==>
            if IsXmlSpace(Getc(s).ch) then WordFollows(es, Getc(s).rest) else ws && WordFollows(es, s)
    decreases |s|
  {
    var g := Getc(s);
    if g.ch != EOF {
      FirstTurn(cb, es, ws, g.ch, g.rest);
      match TurnOn(cb, es, Early([], ws), g.ch, g.rest)
      case Again(st', rest) =>
        if st'.nodeSet {
          SetStaysDefined(cb, es, st', rest);
        } else if st'.buf == [] {
          FirstRun(cb, es, true, rest);
        } else {
          WordRun(cb, es, st'.buf, ws, rest);
        }
      case Done(outcome) =>
    }
  }

  /** For every input: the unset pointer is read if and only if the text starts with white space and then a word. */
  lemma {:induction false} LostExactly(cb: Callback, es: seq<Entity>, s: seq<byte>)
    ensures Load(cb, es, s) == Undefined <==> StartsWithWord(es, s)
  {
    FirstRun(cb, es, false, s);
  }

  /** A blank, x, a blank, <a/> */
  lemma {:induction false} BlankWordIsLost(cb: Callback, es: seq<Entity>)
    ensures Load(cb, es, [32, 120, 32, 60, 97, 47, 62]) == Undefined
  {
    var s: seq<byte> := [32, 120, 32, 60, 97, 47, 62];
    assert Getc(s) == Got(32, s[1..]);
    assert Getc(s[1..]) == Got(120, s[1..][1..]);
    assert Getc(s[1..][1..]) == Got(32, s[1..][1..][1..]);
    LostExactly(cb, es, s);
  }
}
