/** The text handler registered for `h1` elements: every fragment of an h1
    text node that is not the last fragment of that node is split on single
    spaces, each piece (empty ones included) is wrapped in a `span` element,
    and the wrapped pieces, concatenated in order, replace the fragment as
    HTML. The final fragment of a text node is left as it is. */
module H1Wrap {
  import opened Results
  import opened Words

  const Space: char := ' '
  const Open: string := "<span>"
  const Close: string := "</span>"

  /** How replacement content is to be treated by the rewriter. */
  datatype ContentType = Html | Text

  /** What the handler asks the rewriter to do with one text fragment. */
  datatype FragmentEdit = Keep | Replace(content: string, kind: ContentType)

  /** A handler failure; the h1 handler never produces one. */
  datatype HandlerError = HandlerError(reason: string)

  /** One piece wrapped in a span element. */
  function SpanWrap(w: string): (r: string)
  {
    Open + w + Close
  }

  /** The wrapped pieces concatenated in order, built the way the source's
      fold builds it: start from the empty string and append one wrapped
      piece after another. */
  function ConcatSpans(pieces: seq<string>): (r: string)
  {
    if pieces == [] then []
    else ConcatSpans(pieces[..|pieces| - 1]) + SpanWrap(pieces[|pieces| - 1])
  }

  /** The replacement text for a non-final h1 text fragment. */
  function WrapWords(s: string): (r: string)
  {
    ConcatSpans(Split(s, Space))
  }

  /** The fold of the source, written as the loop that appends to an
      accumulator: it computes exactly WrapWords. */
  method WrapWordsFold(s: string) returns (acc: string)
    ensures acc == WrapWords(s)
  {
    var pieces := Split(s, Space);
    acc := "";
    var i := 0;
    while i < |pieces|
      invariant 0 <= i <= |pieces|
      invariant acc == ConcatSpans(pieces[..i])
    {
      assert pieces[..i + 1][..i] == pieces[..i];
      acc := acc + SpanWrap(pieces[i]);
      i := i + 1;
    }
    assert pieces[..|pieces|] == pieces;
  }

  /** The h1 text handler: a final fragment is kept, any other is replaced
      by its wrapped words as HTML; the handler always succeeds. */
  function HandleFragment(s: string, lastInTextNode: bool): (r: Result<FragmentEdit, HandlerError>)
    ensures r.Ok?
    ensures r.value.Keep? <==> lastInTextNode
    ensures r.value.Replace? ==> r.value.kind == Html && r.value.content == WrapWords(s)
  {
    if !lastInTextNode then Ok(Replace(WrapWords(s), Html)) else Ok(Keep)
  }

  /** The text that takes the fragment's place in the output. */
  function Emit(s: string, edit: FragmentEdit): (r: string)
  {
    match edit
    case Keep => s
    case Replace(content, _) => content
  }

  /** The output for one h1 text node delivered as the given fragments, in
      order, of which only the final one is flagged as last. */
  function TextNodeOutput(fragments: seq<string>): (r: string)
  {
    if fragments == [] then []
    else
      var last := |fragments| == 1;
      Emit(fragments[0], HandleFragment(fragments[0], last).value) + TextNodeOutput(fragments[1..])
  }

  // ---------------------------------------------------------------------
  // Reading the output back

  /** The longest prefix of `h` without a '<', and what follows it. */
  function TakeText(h: string): (r: (string, string))
    ensures r.0 + r.1 == h
    ensures '<' !in r.0
    ensures r.1 == [] || r.1[0] == '<'
  {
    if h == [] || h[0] == '<' then ([], h)
    else
      var t := TakeText(h[1..]);
      assert [h[0]] + t.0 + t.1 == h by {
        assert [h[0]] + t.0 + t.1 == [h[0]] + (t.0 + t.1);
        assert h == [h[0]] + h[1..];
      }
      assert '<' !in [h[0]] + t.0;
      ([h[0]] + t.0, t.1)
  }

  /** Parses a sequence of `<span>word</span>` elements whose words hold no
      '<'; whatever it accepts is re-produced exactly by ConcatSpans. */
  function Unwrap(h: string): (r: Option<seq<string>>)
    ensures r.Some? ==> ConcatSpans(r.value) == h
    ensures r.Some? ==> forall i :: 0 <= i < |r.value| ==> '<' !in r.value[i]
    decreases |h|
  {
    if h == [] then Some([])
    else if |h| >= |Open| && h[..|Open|] == Open then
      var t := TakeText(h[|Open|..]);
      var w, rest := t.0, t.1;
      if |rest| >= |Close| && rest[..|Close|] == Close then
        var more := rest[|Close|..];
        match Unwrap(more)
        case None => None
        case Some(ws) =>
          UnwrapStep(h, w, rest, ws);
          Some([w] + ws)
      else None
    else None
  }

  /** One step of Unwrap: a span followed by spans that re-produce the rest. */
  lemma UnwrapStep(h: string, w: string, rest: string, ws: seq<string>)
    requires |h| >= |Open| && h[..|Open|] == Open
    requires w + rest == h[|Open|..]
    requires |rest| >= |Close| && rest[..|Close|] == Close
    requires ConcatSpans(ws) == rest[|Close|..]
    ensures ConcatSpans([w] + ws) == h
  {
    ConcatSpansCons(w, ws);
    calc {
      ConcatSpans([w] + ws);
      Open + w + Close + rest[|Close|..];
      { assert Close + rest[|Close|..] == rest; }
      Open + (w + rest);
      h[..|Open|] + h[|Open|..];
      h;
    }
  }

  // ---------------------------------------------------------------------
  // Properties

  /** Prepending a piece prepends its span. */
  lemma {:induction false} ConcatSpansCons(w: string, ws: seq<string>)
    ensures ConcatSpans([w] + ws) == SpanWrap(w) + ConcatSpans(ws)
    decreases |ws|
  {
    if ws != [] {
      var n := |ws|;
      assert ([w] + ws)[..n] == [w] + ws[..n - 1];
      assert ([w] + ws)[n] == ws[n - 1];
      ConcatSpansCons(w, ws[..n - 1]);
    }
  }

  /** Two space-free words separated by one space give two spans. */
  lemma WrapWordsTwoWords(a: string, b: string)
    requires Space !in a && Space !in b
    ensures WrapWords(a + [Space] + b) == SpanWrap(a) + SpanWrap(b)
  {
    assert Split(a + [Space] + b, Space) == [a, b] by {
      SplitPrefix(a, Space, b);
      SplitNoSep(b, Space);
      assert [a] + [b] == [a, b];
    }
    assert ConcatSpans([a, b]) == SpanWrap(a) + SpanWrap(b) by {
      assert [a] + [b] == [a, b];
      ConcatSpansCons(a, [b]);
      assert [b][..0] == [];
      assert ConcatSpans([b]) == ConcatSpans([]) + SpanWrap(b);
    }
  }

  /** The doc-comment example of the source. */
  lemma WrapWordsExample(s: string)
    requires s == "Example Domain"
    ensures WrapWords(s) == "<span>Example</span><span>Domain</span>"
  {
    WrapWordsExampleWords(s, "Example", "Domain");
    ExampleSpans("Example", "Domain");
  }

  lemma WrapWordsExampleWords(s: string, a: string, b: string)
    requires s == "Example Domain"
    requires a == "Example" && b == "Domain"
    ensures WrapWords(s) == SpanWrap(a) + SpanWrap(b)
  {
    assert s == a + [Space] + b;
    WrapWordsTwoWords(a, b);
  }

  lemma ExampleSpans(a: string, b: string)
    requires a == "Example" && b == "Domain"
    ensures SpanWrap(a) + SpanWrap(b) == "<span>Example</span><span>Domain</span>"
  {
  }

  /** A fragment without a space is wrapped whole; in particular the empty
      fragment becomes one empty span. */
  lemma WrapWordsNoSpace(s: string)
    requires Space !in s
    ensures WrapWords(s) == "<span>" + s + "</span>"
    ensures WrapWords("") == "<span></span>"
  {
    SplitNoSep(s, Space);
    assert [s][..0] == [];
    assert ConcatSpans([s]) == SpanWrap(s);
    SplitNoSep("", Space);
    assert [""][..0] == [];
    assert ConcatSpans([""]) == SpanWrap("");
  }

  /** Spans built from space-free pieces hold no space. */
  lemma {:induction false} ConcatSpansNoSpace(ws: seq<string>)
    requires forall i :: 0 <= i < |ws| ==> Space !in ws[i]
    ensures Space !in ConcatSpans(ws)
    decreases |ws|
  {
    if ws != [] {
      ConcatSpansNoSpace(ws[..|ws| - 1]);
    }
  }

  /** No space survives in the replacement, inside or outside the tags. */
  lemma WrapWordsNoSpaceLeft(s: string)
    ensures Space !in WrapWords(s)
  {
    ConcatSpansNoSpace(Split(s, Space));
  }

  /** The replacement does not determine the fragment when the fragment
      holds markup: a piece containing "</span><span>" gives the same output
      as a space. This is why reading the output back is stated only for
      fragments without '<'. */
  lemma WrapWordsNotInjective(s: string, t: string)
    requires s == "a</span><span>b" && t == "a b"
    ensures s != t && WrapWords(s) == WrapWords(t)
  {
    assert s[1] != t[1];
    assert Space !in s;
    WrapWordsNoSpace(s);
    var a, b := t[..1], t[2..];
    assert t == a + [Space] + b;
    WrapWordsTwoWords(a, b);
    MarkupSpans(s, a, b);
  }

  lemma MarkupSpans(s: string, a: string, b: string)
    requires s == "a</span><span>b" && a == "a" && b == "b"
    ensures SpanWrap(s) == SpanWrap(a) + SpanWrap(b)
  {
  }

  /** Spans of '<'-free pieces are read back as those pieces. */
  lemma {:induction false} UnwrapConcatSpans(ws: seq<string>)
    requires forall i :: 0 <= i < |ws| ==> '<' !in ws[i]
    ensures Unwrap(ConcatSpans(ws)) == Some(ws)
    decreases |ws|
  {
    if ws != [] {
      var w, tail := ws[0], ws[1..];
      assert ws == [w] + tail;
      ConcatSpansCons(w, tail);
      var h := ConcatSpans(ws);
      var c := ConcatSpans(tail);
      assert h == Open + (w + (Close + c));
      assert h[..|Open|] == Open;
      assert h[|Open|..] == w + (Close + c);
      TakeTextPrefix(w, Close + c);
      assert (Close + c)[..|Close|] == Close;
      assert (Close + c)[|Close|..] == c;
      UnwrapConcatSpans(tail);
    }
  }

  /** A '<'-free prefix that ends at a '<' (or at the end) is taken whole. */
  lemma {:induction false} TakeTextPrefix(w: string, t: string)
    requires '<' !in w
    requires t == [] || t[0] == '<'
    ensures TakeText(w + t) == (w, t)
  {
    if w != [] {
      assert w[0] in w;
      assert (w + t)[0] == w[0];
      assert (w + t)[1..] == w[1..] + t;
      TakeTextPrefix(w[1..], t);
      assert TakeText(w + t) == ([w[0]] + w[1..], t);
      assert w == [w[0]] + w[1..];
    } else {
      assert w + t == t;
    }
  }

  /** For a fragment without '<', the replacement reads back as exactly the
      pieces of the fragment split on spaces: one span per space plus one,
      which join back to the fragment with single spaces and which hold
      every non-space character of the fragment, in order. */
  lemma WrapWordsRoundTrip(s: string)
    requires '<' !in s
    ensures Unwrap(WrapWords(s)) == Some(Split(s, Space))
    ensures |Unwrap(WrapWords(s)).value| == Count(s, Space) + 1
    ensures Join(Unwrap(WrapWords(s)).value, Space) == s
    ensures Flatten(Unwrap(WrapWords(s)).value) == Remove(s, Space)
  {
    SplitAbsent(s, Space, '<');
    UnwrapConcatSpans(Split(s, Space));
    SplitCount(s, Space);
    SplitJoin(s, Space);
    FlattenSplit(s, Space);
  }

  /** A text node is replaced fragment by fragment: every fragment but the
      final one is wrapped on its own, and the final one is copied as is. */
  lemma {:induction false} TextNodeOutputFragments(init: seq<string>, last: string)
    ensures TextNodeOutput(init + [last]) == WrapAll(init) + last
  {
    if init == [] {
      assert init + [last] == [last];
      assert [last][1..] == [];
    } else {
      var fragments := init + [last];
      var f := init[0];
      assert fragments[0] == f;
      assert fragments[1..] == init[1..] + [last];
      assert TextNodeOutput(fragments) == WrapWords(f) + TextNodeOutput(fragments[1..]) by {
        assert |fragments| != 1;
        assert HandleFragment(f, false).value == Replace(WrapWords(f), Html);
      }
      TextNodeOutputFragments(init[1..], last);
    }
  }

  /** Each fragment wrapped on its own, concatenated. */
  function WrapAll(fragments: seq<string>): (r: string)
  {
    if fragments == [] then [] else WrapWords(fragments[0]) + WrapAll(fragments[1..])
  }

  /** A text node whose whole text arrives in one fragment followed by an
      empty final fragment comes out as that text's wrapped words. */
  lemma TextNodeOutputWhole(t: string)
    ensures TextNodeOutput([t, ""]) == WrapWords(t)
  {
    assert [t, ""][1..] == [""];
    assert [""][1..] == [];
  }

  /** A space-free word that arrives split over two fragments comes out as
      two spans, not as the one span the whole word would give. */
  lemma TextNodeOutputSplitWord(a: string, b: string)
    requires Space !in a && Space !in b
    ensures TextNodeOutput([a, b, ""]) == SpanWrap(a) + SpanWrap(b)
    ensures WrapWords(a + b) == SpanWrap(a + b)
    ensures TextNodeOutput([a, b, ""]) != WrapWords(a + b)
  {
    var out := TextNodeOutput([a, b, ""]);
    assert out == WrapAll([a, b]) by {
      TextNodeOutputFragments([a, b], "");
      assert [a, b] + [""] == [a, b, ""];
    }
    assert WrapAll([a, b]) == WrapWords(a) + WrapWords(b) by {
      assert [a, b][1..] == [b];
      assert [b][1..] == [];
      assert WrapAll([b]) == WrapWords(b) + WrapAll([]);
      assert WrapAll([a, b]) == WrapWords(a) + WrapAll([b]);
    }
    WrapWordsNoSpace(a);
    WrapWordsNoSpace(b);
    assert Space !in a + b;
    WrapWordsNoSpace(a + b);
    assert |out| == |a| + |b| + 26;
  }
}
