/**
  `toString` over the expression tree.

  PolyTerm, Multiplication and Subtraction are records whose text is Java's
  generated record `toString`; it is the parameter `leafText`. A non-integral
  Log base is printed by `Double.toString`, the parameter `realText`.
  Rendering can fail: `toString` of an empty Complex or Term calls
  `"x".substring(1, 0)`, which throws; `None` models that exception, and it
  propagates through every enclosing sum or chain.

  Complex and Term render by textual substitution: starting from "x", each
  node from outermost to innermost replaces every 'x' in the message by its
  own text in parentheses, and the outermost parentheses are then removed.
 */
module Render {
  import opened Expr
  import Addition
  import Logarithm

  /** `s.replace("x", t)`: every 'x' of `s` replaced by `t`. */
  function Replace(s: string, t: string): string
  {
    if s == [] then [] else (if s[0] == 'x' then t else [s[0]]) + Replace(s[1..], t)
  }

  function Parens(t: string): string
  {
    "(" + t + ")"
  }

  /** The message after the rendering loop has visited nodes with texts
      `texts`, starting from `msg`. */
  function Substituted(msg: string, texts: seq<string>): string
    decreases |texts|
  {
    if texts == [] then msg else Substituted(Replace(msg, Parens(texts[0])), texts[1..])
  }

  /** `s.substring(1, s.length() - 1)`, which throws unless |s| >= 2. */
  function StripOuter(s: string): Option<string>
  {
    if |s| >= 2 then Some(s[1..|s| - 1]) else None
  }

  /** The text of a chain whose nodes render as `texts`. */
  function ChainText(texts: seq<string>): Option<string>
  {
    StripOuter(Substituted("x", texts))
  }

  /** The generated `toString` of a two-component record such as
      Multiplication or Subtraction: "Name[fx=<fx>, gx=<gx>]", which throws
      when either component's `toString` throws. */
  function RecordText(name: string, fx: Option<string>, gx: Option<string>): Option<string>
  {
    if fx.None? || gx.None? then None
    else Some(name + "[fx=" + fx.value + ", gx=" + gx.value + "]")
  }

  function Render(f: Function, leafText: Function -> string, realText: real -> string): Option<string>
    decreases f
  {
    match f
    case Poly(_, _) => Some(leafText(f))
    case Mul(fx, gx) => RecordText("Multiplication", Render(fx, leafText, realText), Render(gx, leafText, realText))
    case Sub(fx, gx) => RecordText("Subtraction", Render(fx, leafText, realText), Render(gx, leafText, realText))
    case Exp => Some("e^x")
    case Log(b) => Some(Logarithm.Text(b, realText))
    case Add(ops) =>
      (match RenderEach(ops, leafText, realText)
       case None => None
       case Some(ts) => Some(Addition.SumText(ts)))
    case Chain(ns) =>
      (match RenderEach(ns, leafText, realText)
       case None => None
       case Some(ts) => ChainText(ts))
    case Term(ns) =>
      (match RenderEach(ns, leafText, realText)
       case None => None
       case Some(ts) => ChainText(ts))
  }

  /** The texts of `fs` in order, or `None` when any of them fails. */
  function RenderEach(fs: seq<Function>, leafText: Function -> string, realText: real -> string): (r: Option<seq<string>>)
    ensures r.Some? <==> forall i :: 0 <= i < |fs| ==> Render(fs[i], leafText, realText).Some?
    ensures r.Some? ==> |r.value| == |fs| && forall i :: 0 <= i < |fs| ==> Render(fs[i], leafText, realText) == Some(r.value[i])
    decreases fs
  {
    if fs == [] then Some([])
    else
      match (Render(fs[0], leafText, realText), RenderEach(fs[1..], leafText, realText))
      case (Some(t), Some(ts)) => Some([t] + ts)
      case _ => None
  }

  // ---------------------------------------------------------------------
  // Substitution laws
  // ---------------------------------------------------------------------

  lemma {:induction false} ReplaceAppend(u: string, v: string, t: string)
    ensures Replace(u + v, t) == Replace(u, t) + Replace(v, t)
    decreases |u|
  {
    if u == [] {
      assert u + v == v;
    } else {
      assert (u + v)[1..] == u[1..] + v;
      ReplaceAppend(u[1..], v, t);
    }
  }

  /** Substituting twice is substituting once with the substituted text. */
  lemma {:induction false} ReplaceAssoc(s: string, a: string, b: string)
    ensures Replace(Replace(s, a), b) == Replace(s, Replace(a, b))
    decreases |s|
  {
    if s != [] {
      var head := if s[0] == 'x' then a else [s[0]];
      ReplaceAppend(head, Replace(s[1..], a), b);
      ReplaceAssoc(s[1..], a, b);
      if s[0] != 'x' {
        assert Replace(head, b) == [s[0]] + Replace([], b);
      }
    }
  }

  lemma {:induction false} ReplaceByX(s: string)
    ensures Replace(s, "x") == s
    decreases |s|
  {
    if s != [] {
      ReplaceByX(s[1..]);
      assert s == [s[0]] + s[1..];
    }
  }

  lemma ReplaceParens(t: string, a: string)
    ensures Replace(Parens(t), a) == Parens(Replace(t, a))
  {
    ReplaceAppend("(" + t, ")", a);
    ReplaceAppend("(", t, a);
    assert Replace("(", a) == "(" + Replace([], a);
    assert Replace(")", a) == ")" + Replace([], a);
  }

  /** One more pass of the rendering loop substitutes the next node's text
      into the message. */
  lemma {:induction false} SubstitutedSnoc(msg: string, texts: seq<string>, t: string)
    ensures Substituted(msg, texts + [t]) == Replace(Substituted(msg, texts), Parens(t))
    decreases |texts|
  {
    if texts == [] {
      assert texts + [t] == [t];
    } else {
      assert (texts + [t])[1..] == texts[1..] + [t];
      SubstitutedSnoc(Replace(msg, Parens(texts[0])), texts[1..], t);
    }
  }

  /** Composition read from the inside: the innermost text, substituted into
      the next outer one, and so on outwards. */
  function Nested(texts: seq<string>): string
    decreases |texts|
  {
    if texts == [] then "x" else Replace(Parens(texts[0]), Nested(texts[1..]))
  }

  lemma {:induction false} SubstitutedIsNested(msg: string, texts: seq<string>)
    ensures Substituted(msg, texts) == Replace(msg, Nested(texts))
    decreases |texts|
  {
    if texts == [] {
      ReplaceByX(msg);
    } else {
      SubstitutedIsNested(Replace(msg, Parens(texts[0])), texts[1..]);
      ReplaceAssoc(msg, Parens(texts[0]), Nested(texts[1..]));
    }
  }

  /** An empty chain throws; a one-node chain renders as its node; a longer
      chain renders as its outermost node's text with every 'x' replaced by
      the parenthesised text of the inner chain. */
  lemma ChainTextLaws(t: string, rest: seq<string>)
    ensures ChainText([]) == None
    ensures ChainText([t]) == Some(t)
    ensures rest != [] ==> ChainText(rest).Some?
    ensures rest != [] ==> ChainText([t] + rest) == Some(Replace(t, Parens(ChainText(rest).value)))
  {
    SubstitutedIsNested("x", [t]);
    ReplaceParens(t, "x");
    ReplaceByX(t);
    assert Replace("x", Nested([t])) == Nested([t]);
    if rest != [] {
      var inner := Nested(rest[1..]);
      SubstitutedIsNested("x", rest);
      ReplaceParens(rest[0], inner);
      assert Replace("x", Nested(rest)) == Nested(rest);
      assert Nested(rest) == Parens(Replace(rest[0], inner));
      var whole := [t] + rest;
      SubstitutedIsNested("x", whole);
      assert whole[1..] == rest;
      ReplaceParens(t, Nested(rest));
      assert Replace("x", Nested(whole)) == Nested(whole);
    }
  }

  // ---------------------------------------------------------------------
  // Rendering facts
  // ---------------------------------------------------------------------

  /** A Complex and a Term over the same nodes render alike: the nodes'
      texts substituted into each other, or `None` if any of them throws. */
  lemma ChainRendering(nodes: seq<Function>, shape: Shape, leafText: Function -> string, realText: real -> string)
    ensures var each := RenderEach(nodes, leafText, realText);
      Render(Wrap(shape, nodes), leafText, realText) ==
        if each.None? then None else StripOuter(Substituted("x", each.value))
  {
  }

  /** Exponential renders "e^x", and so does its derivative (itself). */
  lemma ExpText(leafText: Function -> string, realText: real -> string)
    ensures Render(Exp, leafText, realText) == Some("e^x")
  {
  }

  /** A one-node Complex or Term renders exactly as its sole function,
      failure included. */
  lemma SingleNodeChainText(g: Function, leafText: Function -> string, realText: real -> string)
    ensures Render(Chain([g]), leafText, realText) == Render(g, leafText, realText)
    ensures Render(Term([g]), leafText, realText) == Render(g, leafText, realText)
  {
    var rs := RenderEach([g], leafText, realText);
    if rs.Some? {
      ChainTextLaws(rs.value[0], []);
      assert rs.value == [rs.value[0]];
    }
  }

  /** Rendering an empty Complex throws, and so does any sum containing one
      and any Multiplication or Subtraction with one as either operand. */
  lemma EmptyChainThrows(ops: seq<Function>, other: Function, leafText: Function -> string, realText: real -> string)
    requires Chain([]) in ops
    ensures Render(Chain([]), leafText, realText) == None
    ensures Render(Add(ops), leafText, realText) == None
    ensures Render(Mul(Chain([]), other), leafText, realText) == None && Render(Mul(other, Chain([])), leafText, realText) == None
    ensures Render(Sub(Chain([]), other), leafText, realText) == None && Render(Sub(other, Chain([])), leafText, realText) == None
  {
    ChainTextLaws([], []);
    var i :| 0 <= i < |ops| && ops[i] == Chain([]);
  }

  /** A Multiplication or Subtraction renders exactly when both of its
      operands do, and its text then begins with the record's name and the
      first operand's text. */
  lemma RecordRendering(f: Function, g: Function, leafText: Function -> string, realText: real -> string)
    ensures Render(Mul(f, g), leafText, realText).Some? <==>
      Render(f, leafText, realText).Some? && Render(g, leafText, realText).Some?
    ensures Render(Sub(f, g), leafText, realText).Some? <==>
      Render(f, leafText, realText).Some? && Render(g, leafText, realText).Some?
    ensures Render(Mul(f, g), leafText, realText).Some? ==>
      var t := Render(Mul(f, g), leafText, realText).value;
      var tf := Render(f, leafText, realText).value;
      |t| > 18 + |tf| && t[..18 + |tf|] == "Multiplication[fx=" + tf
  {
  }

  /** A composite of two or more nodes renders as the outer node's text with
      the inner composite's text substituted for x. */
  lemma ChainComposeText(g: Function, rest: seq<Function>, leafText: Function -> string, realText: real -> string)
    requires rest != []
    requires Render(Chain([g] + rest), leafText, realText).Some?
    ensures Render(Chain(rest), leafText, realText).Some?
    ensures Render(Chain([g] + rest), leafText, realText) ==
      Some(Replace(Render(g, leafText, realText).value, Parens(Render(Chain(rest), leafText, realText).value)))
  {
    var all := [g] + rest;
    var ts := RenderEach(all, leafText, realText).value;
    var inner := RenderEach(rest, leafText, realText);
    forall i | 0 <= i < |rest|
      ensures Render(rest[i], leafText, realText).Some?
    {
      assert rest[i] == all[i + 1];
    }
    assert inner.Some?;
    assert ts == [ts[0]] + inner.value by {
      forall i | 0 <= i < |rest|
        ensures inner.value[i] == ts[i + 1]
      {
        assert rest[i] == all[i + 1];
      }
    }
    ChainTextLaws(ts[0], inner.value);
  }

  /** A sum renders its operands' texts by the rule of `Addition.SumText`. */
  lemma SumRendering(ops: seq<Function>, leafText: Function -> string, realText: real -> string)
    requires forall i :: 0 <= i < |ops| ==> Render(ops[i], leafText, realText).Some?
    ensures var ts := RenderEach(ops, leafText, realText);
      && ts.Some?
      && Render(Add(ops), leafText, realText) == Some(Addition.SumText(ts.value))
  {
  }
}
