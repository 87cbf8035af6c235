/** The per-character subtitle wrapping of js/main.js:62-66:
    `text.split('').map(char => <span class="char">…</span>).join('')`. */
module Subtitle {

  datatype Option<T> = None | Some(value: T)

  const SpanOpen: string := "<span class=\"char\">"
  const SpanClose: string := "</span>"
  const Nbsp: string := "&nbsp;"

  predicate StartsWith(s: string, prefix: string)
  {
    |prefix| <= |s| && s[..|prefix|] == prefix
  }

  /** What goes inside one span: the character, or `&nbsp;` for a space. */
  function Escape(c: char): string
  {
    if c == ' ' then Nbsp else [c]
  }

  /** The markup the `map` callback returns for one character. */
  function Span(c: char): string
  {
    SpanOpen + Escape(c) + SpanClose
  }

  /** The lengths and the few characters of the markup the proofs look at. */
  lemma MarkupFacts()
    ensures |SpanOpen| == 19 && |SpanClose| == 7 && |Nbsp| == 6
    ensures SpanOpen[0] == '<' && SpanOpen[1] == 's'
    ensures SpanClose[0] == '<' && SpanClose[1] == '/'
    ensures Nbsp[0] == '&' && Nbsp[1] == 'n'
    ensures forall k :: 0 <= k < |Nbsp| ==> Nbsp[k] != '<'
  {
  }

  /** The `innerHTML` the subtitle is given: one span per character, joined
      with no separator. */
  function WrapChars(text: string): string
  {
    if text == [] then [] else Span(text[0]) + WrapChars(text[1..])
  }

  function Spaces(text: string): nat
  {
    if text == [] then 0 else (if text[0] == ' ' then 1 else 0) + Spaces(text[1..])
  }

  /** Wrapping distributes over concatenation. */
  lemma {:induction false} WrapCharsAppend(a: string, b: string)
    ensures WrapChars(a + b) == WrapChars(a) + WrapChars(b)
  {
    if a == [] {
      assert a + b == b;
    } else {
      assert (a + b)[0] == a[0];
      assert (a + b)[1..] == a[1..] + b;
      WrapCharsAppend(a[1..], b);
    }
  }

  /** Each span is 27 characters long, 32 for a space. */
  lemma {:induction false} WrapCharsLength(text: string)
    ensures |WrapChars(text)| == 27 * |text| + 5 * Spaces(text)
  {
    if text != [] {
      WrapCharsLength(text[1..]);
    }
  }

  /** The `i`-th character's span sits between the markup of the characters
      before it and that of the characters after it. */
  lemma {:induction false} SpanAt(text: string, i: int)
    requires 0 <= i < |text|
    ensures WrapChars(text) == WrapChars(text[..i]) + Span(text[i]) + WrapChars(text[i + 1..])
  {
    assert text == text[..i] + ([text[i]] + text[i + 1..]);
    WrapCharsAppend(text[..i], [text[i]] + text[i + 1..]);
    assert ([text[i]] + text[i + 1..])[1..] == text[i + 1..];
  }

  /** Read the markup back span by span: a span holding `&nbsp;` stands for a
      space, a span holding one other character for that character. (19 is
      the length of `SpanOpen`, 27 that of a span around one character.) */
  function Unwrap(html: string): Option<string>
    decreases |html|
  {
    if html == [] then Some("")
    else if StartsWith(html, Span(' ')) then
      match Unwrap(html[|Span(' ')|..])
      case Some(t) => Some([' '] + t)
      case None => None
    else if 27 <= |html| && html[..19] == SpanOpen && html[19] != ' ' && html[20..27] == SpanClose then
      match Unwrap(html[27..])
      case Some(t) => Some([html[19]] + t)
      case None => None
    else None
  }

  /** Reading the markup back gives the original text, whatever it holds. */
  lemma {:induction false} UnwrapWrapChars(text: string)
    ensures Unwrap(WrapChars(text)) == Some(text)
  {
    if text != [] {
      MarkupFacts();
      var c := text[0];
      var rest := WrapChars(text[1..]);
      var html := WrapChars(text);
      assert html == Span(c) + rest;
      UnwrapWrapChars(text[1..]);
      if c == ' ' {
        assert StartsWith(html, Span(' '));
        assert html[|Span(' ')|..] == rest;
        assert text == [' '] + text[1..];
      } else {
        assert Span(c) == SpanOpen + [c] + SpanClose;
        assert |Span(c)| == 27;
        assert html[..19] == SpanOpen;
        assert html[19] == c;
        assert html[20..27] == SpanClose;
        assert html[27..] == rest;
        assert html[20] == '<';
        assert Span(' ')[20] == 'n';
        assert !StartsWith(html, Span(' '));
        assert text == [c] + text[1..];
      }
    }
  }

  /** Only markup produced by the wrapping reads back: the decoder recognises
      exactly the images of `WrapChars`. */
  lemma {:induction false} WrapCharsUnwrap(html: string, text: string)
    requires Unwrap(html) == Some(text)
    ensures WrapChars(text) == html
    decreases |html|
  {
    if html != [] {
      MarkupFacts();
      if StartsWith(html, Span(' ')) {
        var rest := html[|Span(' ')|..];
        var t :| Unwrap(rest) == Some(t) && text == [' '] + t;
        WrapCharsUnwrap(rest, t);
        assert html == Span(' ') + rest;
        assert text[1..] == t;
      } else {
        var rest := html[27..];
        var c := html[19];
        var t :| Unwrap(rest) == Some(t) && text == [c] + t;
        WrapCharsUnwrap(rest, t);
        assert html == html[..19] + [c] + html[20..27] + rest;
        assert Span(c) == SpanOpen + [c] + SpanClose;
        assert text[1..] == t;
      }
    }
  }

  // A second way to recover the text: delete every span tag from the markup,
  // then turn every `&nbsp;` back into a space.

  /** Delete every `<span class="char">` and `</span>`, scanning left to right. */
  function StripSpans(html: string): string
    decreases |html|
  {
    if html == [] then []
    else if StartsWith(html, SpanOpen) then StripSpans(html[|SpanOpen|..])
    else if StartsWith(html, SpanClose) then StripSpans(html[|SpanClose|..])
    else [html[0]] + StripSpans(html[1..])
  }

  /** Replace every `&nbsp;` with a space, scanning left to right. */
  function DecodeNbsp(s: string): string
    decreases |s|
  {
    if s == [] then []
    else if StartsWith(s, Nbsp) then [' '] + DecodeNbsp(s[|Nbsp|..])
    else [s[0]] + DecodeNbsp(s[1..])
  }

  /** The span contents run together. */
  function EscapeAll(text: string): string
  {
    if text == [] then [] else Escape(text[0]) + EscapeAll(text[1..])
  }

  /** The six characters of `&nbsp;` start at position `i` of `s`. */
  predicate NbspAt(s: string, i: int)
  {
    0 <= i && i + |Nbsp| <= |s| && s[i..i + |Nbsp|] == Nbsp
  }

  predicate HasLiteralNbsp(text: string)
  {
    exists i :: 0 <= i < |text| && NbspAt(text, i)
  }

  /** Text without `<` passes through the tag deletion unchanged. */
  lemma {:induction false} StripPlain(u: string, rest: string)
    requires forall k :: 0 <= k < |u| ==> u[k] != '<'
    ensures StripSpans(u + rest) == u + StripSpans(rest)
    decreases |u|
  {
    if u == [] {
      assert u + rest == rest;
    } else {
      assert (u + rest)[0] == u[0];
      assert (u + rest)[1..] == u[1..] + rest;
      StripPlain(u[1..], rest);
    }
  }

  /** Deleting the tags from one span and what follows it leaves that span's
      contents: no character, `<` included, makes a tag with the markup
      around it. */
  lemma StripSpan(c: char, rest: string)
    ensures StripSpans(Span(c) + rest) == Escape(c) + StripSpans(rest)
  {
    MarkupFacts();
    var tail := SpanClose + rest;
    var html := Span(c) + rest;
    assert html == SpanOpen + (Escape(c) + tail);
    assert StartsWith(html, SpanOpen);
    assert html[|SpanOpen|..] == Escape(c) + tail;
    assert StripSpans(tail) == StripSpans(rest) by {
      assert StartsWith(tail, SpanClose);
      assert tail[|SpanClose|..] == rest;
    }
    if c == ' ' {
      StripPlain(Nbsp, tail);
    } else {
      var t := [c] + tail;
      assert t[1] == '<';
      assert !StartsWith(t, SpanOpen) by {
        if |SpanOpen| <= |t| {
          assert t[..|SpanOpen|][1] == '<';
        }
      }
      assert t[..|SpanClose|][1] == '<';
      assert !StartsWith(t, SpanClose);
      assert t[1..] == tail;
    }
  }

  /** Deleting the tags leaves exactly the span contents, whatever the text. */
  lemma {:induction false} StripWrapChars(text: string)
    ensures StripSpans(WrapChars(text)) == EscapeAll(text)
  {
    if text != [] {
      StripWrapChars(text[1..]);
      StripSpan(text[0], WrapChars(text[1..]));
    }
  }

  /** The span contents start with an ampersand-free string only when the
      text does. */
  lemma {:induction false} EscapePrefix(text: string, p: string)
    requires forall k :: 0 <= k < |p| ==> p[k] != '&'
    ensures StartsWith(EscapeAll(text), p) ==> StartsWith(text, p)
    decreases |p|
  {
    if p != [] && StartsWith(EscapeAll(text), p) {
      var e := EscapeAll(text);
      var c := text[0];
      assert e == Escape(c) + EscapeAll(text[1..]);
      assert e[..|p|] == p;
      assert e[0] == p[0];
      assert Escape(' ')[0] == '&';
      assert c != ' ';
      assert e[1..] == EscapeAll(text[1..]);
      assert StartsWith(EscapeAll(text[1..]), p[1..]) by {
        assert e[1..][..|p| - 1] == p[1..];
      }
      EscapePrefix(text[1..], p[1..]);
      assert text[..|p|] == [c] + text[1..][..|p| - 1];
    }
  }

  /** Turning `&nbsp;` back into spaces recovers the text, provided the text
      itself does not contain the six characters `&nbsp;`. */
  lemma {:induction false} DecodeEscapeAll(text: string)
    requires !HasLiteralNbsp(text)
    ensures DecodeNbsp(EscapeAll(text)) == text
  {
    if text != [] {
      var c := text[0];
      var e := EscapeAll(text);
      assert e == Escape(c) + EscapeAll(text[1..]);
      assert !HasLiteralNbsp(text[1..]) by {
        forall i | NbspAt(text[1..], i)
          ensures false
        {
          assert text[1..][i..i + |Nbsp|] == text[i + 1..i + 1 + |Nbsp|];
          assert NbspAt(text, i + 1);
        }
      }
      DecodeEscapeAll(text[1..]);
      if c == ' ' {
        assert e[|Nbsp|..] == EscapeAll(text[1..]);
      } else {
        MarkupFacts();
        EscapePrefix(text[1..], Nbsp[1..]);
        assert !NbspAt(text, 0);
        assert !StartsWith(e, Nbsp);
        assert e[1..] == EscapeAll(text[1..]);
      }
    }
  }

  /** Deleting the tags and decoding `&nbsp;` recovers any text that holds no
      literal `&nbsp;`. */
  lemma RecoverText(text: string)
    requires !HasLiteralNbsp(text)
    ensures DecodeNbsp(StripSpans(WrapChars(text))) == text
  {
    StripWrapChars(text);
    DecodeEscapeAll(text);
  }

  /** The proviso is needed: the text `&nbsp;` comes back as one space. */
  lemma LiteralNbspIsLost()
    ensures DecodeNbsp(StripSpans(WrapChars(Nbsp))) == " "
  {
    StripWrapChars(Nbsp);
    assert EscapeAll(Nbsp) == Nbsp;
    assert Nbsp[|Nbsp|..] == [];
  }
}
