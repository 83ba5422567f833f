/** Jsoup's text extraction, through which the Kotlin extractor reads every
    text: `Element.text()` squeezes each run of whitespace to one space,
    drops invisible characters and trims; `Elements.text()` joins the texts
    of all matched elements with a space. */
module Jsoup {
  import opened Text

  /** Jsoup's whitespace (`StringUtil.isActuallyWhitespace`). */
  predicate IsJsoupSpace(c: char) {
    c == ' ' || c == '\t' || c == '\n' || c == '\U{000C}' || c == '\r' || c == '\U{00A0}'
  }

  /** Characters Jsoup leaves out of extracted text (`StringUtil.isInvisibleChar`):
      the zero-width space and the soft hyphen. */
  predicate IsInvisible(c: char) {
    c == '\U{200B}' || c == '\U{00AD}'
  }

  /** The characters Java's `String.trim` removes: everything up to U+0020. */
  predicate IsJavaSpace(c: char) {
    c <= ' '
  }

  /** `StringUtil.appendNormalisedWhitespace` onto text that ends in
      whitespace exactly when `afterSpace`: a run of whitespace becomes one
      space (none right after a space), invisible characters vanish, the
      rest is copied. */
  function Squeeze(s: string, afterSpace: bool): (r: string)
    ensures |r| <= |s|
    decreases |s|
  {
    if |s| == 0 then []
    else if IsJsoupSpace(s[0]) then (if afterSpace then "" else " ") + Squeeze(s[1..], true)
    else if IsInvisible(s[0]) then Squeeze(s[1..], afterSpace)
    else [s[0]] + Squeeze(s[1..], false)
  }

  /** `Element.text()` of an element whose text content is `s`. */
  function ElementText(s: string): string {
    TrimBy(Squeeze(s, false), IsJavaSpace)
  }

  /** `Elements.text()`: every matched element's text, joined with a space. */
  function ElementsText(texts: seq<string>): string {
    Join(ElementTexts(texts), ' ')
  }

  /** `Element.text()` of each element. */
  function ElementTexts(texts: seq<string>): (r: seq<string>)
    ensures |r| == |texts|
    ensures forall i :: 0 <= i < |texts| ==> r[i] == ElementText(texts[i])
  {
    seq(|texts|, i requires 0 <= i < |texts| => ElementText(texts[i]))
  }

  // ---------------------------------------------------------------------------
  // What normalised text looks like
  // ---------------------------------------------------------------------------

  /** Text as Jsoup hands it out: no whitespace but the plain space, no
      invisible character, no two spaces in a row, nothing Java would trim
      at either end. */
  predicate Normalised(s: string) {
    && (forall i :: 0 <= i < |s| ==> !IsInvisible(s[i]) && (IsJsoupSpace(s[i]) ==> s[i] == ' '))
    && (forall i :: 0 <= i < |s| - 1 ==> s[i] == ' ' ==> s[i + 1] != ' ')
    && (|s| == 0 || (!IsJavaSpace(s[0]) && !IsJavaSpace(s[|s| - 1])))
  }

  /** No whitespace but the plain space, no invisible character, no two
      spaces in a row, and no leading space after a space. */
  predicate Squeezed(s: string, afterSpace: bool) {
    && (forall i :: 0 <= i < |s| ==> !IsInvisible(s[i]) && (IsJsoupSpace(s[i]) ==> s[i] == ' '))
    && (forall i :: 0 <= i < |s| - 1 ==> s[i] == ' ' ==> s[i + 1] != ' ')
    && (afterSpace && |s| > 0 ==> s[0] != ' ')
  }

  /** Squeezing produces squeezed text, and leaves squeezed text as it is. */
  lemma {:induction false} SqueezeSpec(s: string, afterSpace: bool)
    ensures Squeezed(Squeeze(s, afterSpace), afterSpace)
    ensures Squeezed(s, afterSpace) ==> Squeeze(s, afterSpace) == s
    decreases |s|
  {
    if |s| > 0 {
      var r := Squeeze(s, afterSpace);
      if IsJsoupSpace(s[0]) {
        SqueezeSpec(s[1..], true);
        var t := Squeeze(s[1..], true);
        SqueezedCons(if afterSpace then "" else " ", t, afterSpace);
        if Squeezed(s, afterSpace) {
          SqueezedTail(s, afterSpace);
          assert s == " " + s[1..];
        }
      } else if IsInvisible(s[0]) {
        SqueezeSpec(s[1..], afterSpace);
      } else {
        SqueezeSpec(s[1..], false);
        SqueezedCons([s[0]], Squeeze(s[1..], false), afterSpace);
        if Squeezed(s, afterSpace) {
          SqueezedTail(s, afterSpace);
          assert s == [s[0]] + s[1..];
        }
      }
    }
  }

  /** The tail of squeezed text is squeezed after its first character. */
  lemma SqueezedTail(s: string, afterSpace: bool)
    requires |s| > 0 && Squeezed(s, afterSpace)
    ensures Squeezed(s[1..], s[0] == ' ')
  {
    var t := s[1..];
    forall i | 0 <= i < |t| ensures !IsInvisible(t[i]) && (IsJsoupSpace(t[i]) ==> t[i] == ' ') {
      assert t[i] == s[i + 1];
    }
    forall i | 0 <= i < |t| - 1 ensures t[i] == ' ' ==> t[i + 1] != ' ' {
      assert t[i] == s[i + 1] && t[i + 1] == s[i + 2];
    }
  }

  /** Squeezed text stays squeezed behind a head that is empty, one space
      (when the text was squeezed after a space), or one character that is
      neither whitespace nor invisible. */
  lemma SqueezedCons(h: string, t: string, afterSpace: bool)
    requires h == "" || h == " " || (|h| == 1 && !IsJsoupSpace(h[0]) && !IsInvisible(h[0]))
    requires Squeezed(t, h == " " || (h == "" && afterSpace))
    requires h == " " ==> !afterSpace
    ensures Squeezed(h + t, afterSpace)
  {
    var s := h + t;
    forall i | 0 <= i < |s| ensures !IsInvisible(s[i]) && (IsJsoupSpace(s[i]) ==> s[i] == ' ') {
      if i >= |h| { assert s[i] == t[i - |h|]; }
    }
    forall i | 0 <= i < |s| - 1 ensures s[i] == ' ' ==> s[i + 1] != ' ' {
      if i >= |h| { assert s[i] == t[i - |h|] && s[i + 1] == t[i + 1 - |h|]; }
      else { assert s[i + 1] == t[0]; }
    }
  }

  /** Trimming squeezed text leaves normalised text. */
  lemma TrimSqueezed(s: string)
    requires Squeezed(s, false)
    ensures Normalised(TrimBy(s, IsJavaSpace))
  {
    var r := TrimBy(s, IsJavaSpace);
    var a := |s| - |TrimStart(s, IsJavaSpace)|;
    forall i | 0 <= i < |r| ensures !IsInvisible(r[i]) && (IsJsoupSpace(r[i]) ==> r[i] == ' ') {
      assert r[i] == s[a + i];
    }
    forall i | 0 <= i < |r| - 1 ensures r[i] == ' ' ==> r[i + 1] != ' ' {
      assert r[i] == s[a + i] && r[i + 1] == s[a + i + 1];
    }
  }

  /** `Element.text()` always hands out normalised text, and normalised
      text is exactly the text it leaves unchanged; so it is idempotent. */
  lemma ElementTextNormalises(s: string)
    ensures Normalised(ElementText(s))
    ensures Normalised(s) <==> ElementText(s) == s
    ensures ElementText(ElementText(s)) == ElementText(s)
  {
    SqueezeSpec(s, false);
    TrimSqueezed(Squeeze(s, false));
    if Normalised(s) {
      assert Squeezed(s, false);
      TrimUnchanged(s, IsJavaSpace);
    }
    var r := ElementText(s);
    assert Squeezed(r, false);
    SqueezeSpec(r, false);
    TrimUnchanged(r, IsJavaSpace);
  }

  // ---------------------------------------------------------------------------
  // What normalisation keeps
  // ---------------------------------------------------------------------------

  /** The characters of `s` that are neither whitespace nor invisible, in order. */
  function Solid(s: string): (r: string)
    ensures |r| <= |s|
    decreases |s|
  {
    if |s| == 0 then []
    else if IsJsoupSpace(s[0]) || IsInvisible(s[0]) then Solid(s[1..])
    else [s[0]] + Solid(s[1..])
  }

  /** Squeezing keeps every character that is neither whitespace nor
      invisible, in order. */
  lemma {:induction false} SqueezeKeepsSolid(s: string, afterSpace: bool)
    ensures Solid(Squeeze(s, afterSpace)) == Solid(s)
    decreases |s|
  {
    if |s| > 0 {
      if IsJsoupSpace(s[0]) {
        SqueezeKeepsSolid(s[1..], true);
        var t := Squeeze(s[1..], true);
        if !afterSpace {
          assert (" " + t)[1..] == t;
        } else {
          assert "" + t == t;
        }
      } else if IsInvisible(s[0]) {
        SqueezeKeepsSolid(s[1..], afterSpace);
      } else {
        SqueezeKeepsSolid(s[1..], false);
        assert ([s[0]] + Squeeze(s[1..], false))[1..] == Squeeze(s[1..], false);
      }
    }
  }

  /** Squeezing keeps the count of every character that is neither
      whitespace nor invisible. */
  lemma {:induction false} SqueezeKeepsCount(s: string, afterSpace: bool, c: char)
    requires !IsJsoupSpace(c) && !IsInvisible(c)
    ensures multiset(Squeeze(s, afterSpace))[c] == multiset(s)[c]
    decreases |s|
  {
    if |s| > 0 {
      assert s == [s[0]] + s[1..];
      if IsJsoupSpace(s[0]) {
        SqueezeKeepsCount(s[1..], true, c);
      } else if IsInvisible(s[0]) {
        SqueezeKeepsCount(s[1..], afterSpace, c);
      } else {
        SqueezeKeepsCount(s[1..], false, c);
      }
    }
  }

  /** `Element.text()` keeps the count of every character that is neither
      whitespace, nor invisible, nor trimmed by Java. */
  lemma ElementTextKeepsCount(s: string, c: char)
    requires !IsJsoupSpace(c) && !IsInvisible(c) && !IsJavaSpace(c)
    ensures multiset(ElementText(s))[c] == multiset(s)[c]
  {
    SqueezeKeepsCount(s, false, c);
    TrimKeepsCount(Squeeze(s, false), IsJavaSpace, c);
  }

  /** A single match is read as that element's text, and normalised text
      as it is. */
  lemma ElementsTextOfOne(t: string)
    ensures ElementsText([t]) == ElementText(t)
    ensures Normalised(t) ==> ElementsText([t]) == t
  {
    assert ElementTexts([t]) == [ElementText(t)];
    ElementTextNormalises(t);
  }

  /** How often `c` occurs in all of `texts` together. */
  function Occurrences(texts: seq<string>, c: char): nat
    decreases |texts|
  {
    if |texts| == 0 then 0 else multiset(texts[0])[c] + Occurrences(texts[1..], c)
  }

  /** `Elements.text()` keeps the count of every character that is neither
      whitespace, nor invisible, nor trimmed by Java, summed over the
      matched elements. */
  lemma {:induction false} ElementsTextKeepsCount(texts: seq<string>, c: char)
    requires !IsJsoupSpace(c) && !IsInvisible(c) && !IsJavaSpace(c)
    ensures multiset(ElementsText(texts))[c] == Occurrences(texts, c)
    decreases |texts|
  {
    if |texts| > 0 {
      var ts := ElementTexts(texts);
      ElementTextKeepsCount(texts[0], c);
      assert ts[1..] == ElementTexts(texts[1..]);
      if |texts| == 1 {
        assert Occurrences(texts[1..], c) == 0;
      } else {
        ElementsTextKeepsCount(texts[1..], c);
        assert ElementsText(texts) == ts[0] + [' '] + Join(ts[1..], ' ');
        assert multiset(ts[0] + [' '] + Join(ts[1..], ' '))
            == multiset(ts[0]) + multiset([' ']) + multiset(Join(ts[1..], ' '));
      }
    }
  }

  /** Whitespace around normalised, non-empty text is what `Element.text()`
      removes. */
  lemma PaddedText(sp1: string, x: string, sp2: string)
    requires forall i :: 0 <= i < |sp1| ==> IsJsoupSpace(sp1[i])
    requires forall i :: 0 <= i < |sp2| ==> IsJsoupSpace(sp2[i])
    requires Normalised(x) && x != ""
    ensures ElementText(sp1 + x + sp2) == x
  {
    SpacesThenSqueezed(sp1, x + sp2);
    var lead := if |sp1| > 0 then " " else "";
    assert Squeeze(sp1 + x + sp2, false) == lead + Squeeze(x + sp2, false) by {
      assert sp1 + x + sp2 == sp1 + (x + sp2);
    }
    SqueezedThenSpaces(x, sp2);
    var trail := if |sp2| > 0 then " " else "";
    assert Squeeze(sp1 + x + sp2, false) == lead + x + trail;
    TrimPadded(lead, x, trail, IsJavaSpace);
  }

  /** A run of whitespace in front squeezes to at most one space. */
  lemma {:induction false} SpacesThenSqueezed(sp: string, t: string)
    requires forall i :: 0 <= i < |sp| ==> IsJsoupSpace(sp[i])
    requires |t| > 0 && !IsJsoupSpace(t[0]) && !IsInvisible(t[0])
    ensures Squeeze(sp + t, false) == (if |sp| > 0 then " " else "") + Squeeze(t, false)
    decreases |sp|
  {
    if |sp| > 0 {
      assert (sp + t)[1..] == sp[1..] + t;
      SpacesAfterSpace(sp[1..], t);
    } else {
      assert sp + t == t;
    }
  }

  /** After a space, a run of whitespace squeezes to nothing. */
  lemma {:induction false} SpacesAfterSpace(sp: string, t: string)
    requires forall i :: 0 <= i < |sp| ==> IsJsoupSpace(sp[i])
    requires |t| > 0 && !IsJsoupSpace(t[0]) && !IsInvisible(t[0])
    ensures Squeeze(sp + t, true) == Squeeze(t, false)
    decreases |sp|
  {
    if |sp| > 0 {
      assert (sp + t)[1..] == sp[1..] + t;
      SpacesAfterSpace(sp[1..], t);
    } else {
      assert sp + t == t;
    }
  }

  /** Normalised text followed by a run of whitespace squeezes to the text
      and at most one space. */
  lemma {:induction false} SqueezedThenSpaces(x: string, sp: string)
    requires forall i :: 0 <= i < |sp| ==> IsJsoupSpace(sp[i])
    requires Normalised(x) && x != ""
    ensures Squeeze(x + sp, false) == x + (if |sp| > 0 then " " else "")
  {
    assert Squeezed(x, false);
    var s := x + sp;
    SqueezePrefix(x, sp, false);
    SqueezeSpec(x, false);
    if |sp| > 0 {
      assert x[|x| - 1] != ' ';
      SpacesAfterNonSpace(sp);
    } else {
      assert Squeeze(sp, false) == "";
    }
  }

  /** A run of whitespace after a non-space squeezes to one space. */
  lemma SpacesAfterNonSpace(sp: string)
    requires |sp| > 0 && forall i :: 0 <= i < |sp| ==> IsJsoupSpace(sp[i])
    ensures Squeeze(sp, false) == " "
  {
    AllSpacesAfterSpace(sp[1..]);
  }

  /** After a space, whitespace alone squeezes to nothing. */
  lemma {:induction false} AllSpacesAfterSpace(sp: string)
    requires forall i :: 0 <= i < |sp| ==> IsJsoupSpace(sp[i])
    ensures Squeeze(sp, true) == ""
    decreases |sp|
  {
    if |sp| > 0 {
      AllSpacesAfterSpace(sp[1..]);
    }
  }

  /** Squeezing text that ends in a visible non-space character and then
      more text is squeezing the two parts on their own. */
  lemma {:induction false} SqueezePrefix(x: string, y: string, afterSpace: bool)
    requires |x| > 0 && !IsJsoupSpace(x[|x| - 1]) && !IsInvisible(x[|x| - 1])
    ensures Squeeze(x + y, afterSpace) == Squeeze(x, afterSpace) + Squeeze(y, false)
    decreases |x|
  {
    assert (x + y)[1..] == x[1..] + y;
    if |x| == 1 {
      assert x[1..] + y == y;
      assert Squeeze(x, afterSpace) == [x[0]] + Squeeze([], false);
    } else if IsJsoupSpace(x[0]) {
      SqueezePrefix(x[1..], y, true);
    } else if IsInvisible(x[0]) {
      SqueezePrefix(x[1..], y, afterSpace);
    } else {
      SqueezePrefix(x[1..], y, false);
    }
  }
}
