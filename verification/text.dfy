/** String helpers shared by every extractor: split/join, trim, take-while,
    the Hebrew-block test, the first-four-digits year rule, Kotlin's
    `substringBefore`, and decimal digit strings. */
module Text {
  import opened Wrappers

  // ---------------------------------------------------------------------------
  // Split and join on a single separator character
  // ---------------------------------------------------------------------------

  /** Joins `parts` with `sep` between neighbours (JavaScript `Array.join`,
      Kotlin `joinToString`); the empty list joins to "". */
  function Join(parts: seq<string>, sep: char): string
    decreases |parts|
  {
    if |parts| == 0 then ""
    else if |parts| == 1 then parts[0]
    else parts[0] + [sep] + Join(parts[1..], sep)
  }

  /** `s.split(sep)` for a one-character separator, as JavaScript's
      `String.prototype.split` and Kotlin's `split` behave: every occurrence
      cuts, empty pieces are kept, and "" splits to [""]. */
  function Split(s: string, sep: char): (parts: seq<string>)
    ensures |parts| >= 1
    decreases |s|
  {
    if |s| == 0 then [""]
    else
      var rest := Split(s[1..], sep);
      if s[0] == sep then [""] + rest
      else [[s[0]] + rest[0]] + rest[1..]
  }

  /** No piece contains the separator, and joining the pieces back with it
      gives the text. */
  lemma {:induction false} SplitSpec(s: string, sep: char)
    ensures forall i :: 0 <= i < |Split(s, sep)| ==> sep !in Split(s, sep)[i]
    ensures Join(Split(s, sep), sep) == s
    decreases |s|
  {
    if |s| > 0 {
      var rest := Split(s[1..], sep);
      SplitSpec(s[1..], sep);
      assert s == [s[0]] + s[1..];
      var parts := Split(s, sep);
      if s[0] == sep {
        assert parts == [""] + rest;
        JoinCons("", rest, sep);
        forall i | 0 <= i < |parts| ensures sep !in parts[i] {
          if i > 0 { assert parts[i] == rest[i - 1]; }
        }
      } else {
        var head := [s[0]] + rest[0];
        assert parts == [head] + rest[1..];
        assert sep !in head;
        forall i | 0 <= i < |parts| ensures sep !in parts[i] {
          if i > 0 { assert parts[i] == rest[i]; }
        }
        if |rest| == 1 {
          assert parts == [head];
        } else {
          JoinCons(rest[0], rest[1..], sep);
          assert rest == [rest[0]] + rest[1..];
          JoinCons(head, rest[1..], sep);
        }
      }
    }
  }

  lemma JoinCons(head: string, tail: seq<string>, sep: char)
    requires |tail| >= 1
    ensures Join([head] + tail, sep) == head + [sep] + Join(tail, sep)
  {
    assert ([head] + tail)[1..] == tail;
  }

  /** Splitting a joined list gives the list back, provided no part contains
      the separator: split and join are inverse on their natural domains. */
  lemma {:induction false} SplitJoin(parts: seq<string>, sep: char)
    requires |parts| >= 1
    requires forall i :: 0 <= i < |parts| ==> sep !in parts[i]
    ensures Split(Join(parts, sep), sep) == parts
    decreases |parts|, |parts[0]|
  {
    if |parts| == 1 {
      SplitNoSeparator(parts[0], sep);
    } else {
      var p := parts[0];
      if |p| == 0 {
        JoinCons(p, parts[1..], sep);
        var s := Join(parts, sep);
        assert s == [sep] + Join(parts[1..], sep);
        assert s[1..] == Join(parts[1..], sep);
        SplitJoin(parts[1..], sep);
        assert Split(s, sep) == [""] + parts[1..];
        assert parts == [""] + parts[1..];
      } else {
        var shorter := [p[1..]] + parts[1..];
        assert shorter[1..] == parts[1..];
        forall i | 0 <= i < |shorter| ensures sep !in shorter[i] {
          if i == 0 {
            assert forall c :: c in p[1..] ==> c in p;
          } else {
            assert shorter[i] == parts[i];
          }
        }
        JoinCons(p, parts[1..], sep);
        JoinCons(p[1..], parts[1..], sep);
        var s := Join(parts, sep);
        assert s == [p[0]] + Join(shorter, sep);
        assert s[1..] == Join(shorter, sep);
        assert p[0] != sep by { assert p[0] in p; }
        SplitJoin(shorter, sep);
        var rest := Split(s[1..], sep);
        assert rest == shorter;
        assert [p[0]] + p[1..] == p;
        assert Split(s, sep) == [p] + parts[1..];
        assert parts == [p] + parts[1..];
      }
    }
  }

  /** A string without the separator splits into itself alone. */
  lemma {:induction false} SplitNoSeparator(s: string, sep: char)
    requires sep !in s
    ensures Split(s, sep) == [s]
    decreases |s|
  {
    if |s| > 0 {
      assert sep !in s[1..] by { assert forall c :: c in s[1..] ==> c in s; }
      SplitNoSeparator(s[1..], sep);
      assert [s[0]] + s[1..] == s;
    }
  }

  /** Joining two non-empty lists one after the other puts one separator
      between them. */
  lemma {:induction false} JoinAppend(a: seq<string>, b: seq<string>, sep: char)
    requires |a| >= 1 && |b| >= 1
    ensures Join(a + b, sep) == Join(a, sep) + [sep] + Join(b, sep)
    decreases |a|
  {
    if |a| == 1 {
      JoinCons(a[0], b, sep);
      assert a + b == [a[0]] + b;
    } else {
      JoinAppend(a[1..], b, sep);
      JoinCons(a[0], a[1..] + b, sep);
      assert a + b == [a[0]] + (a[1..] + b);
      JoinCons(a[0], a[1..], sep);
      assert a == [a[0]] + a[1..];
    }
  }

  /** A separator occurrence is a cut: the pieces on either side split
      independently. */
  lemma SplitAtSeparator(x: string, y: string, sep: char)
    ensures Split(x + [sep] + y, sep) == Split(x, sep) + Split(y, sep)
  {
    var px, py := Split(x, sep), Split(y, sep);
    SplitSpec(x, sep);
    SplitSpec(y, sep);
    var both := px + py;
    JoinAppend(px, py, sep);
    assert Join(both, sep) == x + [sep] + y;
    assert forall i :: 0 <= i < |px| ==> both[i] == px[i];
    assert forall i :: |px| <= i < |both| ==> both[i] == py[i - |px|];
    assert forall i :: 0 <= i < |both| ==> sep !in both[i];
    SplitJoin(both, sep);
  }

  /** There is one more piece than there are separators. */
  lemma {:induction false} SplitCount(s: string, sep: char)
    ensures |Split(s, sep)| == multiset(s)[sep] + 1
    decreases |s|
  {
    if |s| > 0 {
      SplitCount(s[1..], sep);
      assert s == [s[0]] + s[1..];
      assert multiset(s) == multiset([s[0]]) + multiset(s[1..]);
    }
  }

  /** `Join([a, b, c], sep)` spelled out. */
  lemma JoinThree(a: string, b: string, c: string, sep: char)
    ensures Join([a, b], sep) == a + [sep] + b
    ensures Join([a, b, c], sep) == a + [sep] + b + [sep] + c
  {
    assert [a, b][1..] == [b];
    assert [a, b, c][1..] == [b, c];
    assert [b, c][1..] == [c];
    assert Join([b, c], sep) == b + [sep] + c;
    assert a + [sep] + (b + [sep] + c) == a + [sep] + b + [sep] + c;
  }

  /** The elements of `s` in the opposite order (JavaScript `reverse`). */
  function Reverse<T>(s: seq<T>): (r: seq<T>)
    ensures |r| == |s|
    ensures forall i :: 0 <= i < |s| ==> r[i] == s[|s| - 1 - i]
    decreases |s|
  {
    if |s| == 0 then [] else Reverse(s[1..]) + [s[0]]
  }

  // ---------------------------------------------------------------------------
  // Whitespace and trim
  // ---------------------------------------------------------------------------

  /** The characters JavaScript's `String.prototype.trim` removes: the
      WhiteSpace and LineTerminator productions of ECMAScript. */
  predicate IsJsSpace(c: char) {
    c == ' ' || c == '\t' || c == '\n' || c == '\r' || c == '\U{000B}' || c == '\U{000C}'
    || c == '\U{00A0}' || c == '\U{1680}' || ('\U{2000}' <= c <= '\U{200A}')
    || c == '\U{2028}' || c == '\U{2029}' || c == '\U{202F}' || c == '\U{205F}'
    || c == '\U{3000}' || c == '\U{FEFF}'
  }

  /** The characters Kotlin's `Char.isWhitespace` accepts on the JVM
      (`Character.isWhitespace` or `Character.isSpaceChar`). It differs from
      JavaScript on U+001C..U+001F (Kotlin only) and U+FEFF (JavaScript only). */
  predicate IsKotlinSpace(c: char) {
    c == ' ' || c == '\t' || c == '\n' || c == '\r' || c == '\U{000B}' || c == '\U{000C}'
    || ('\U{001C}' <= c <= '\U{001F}')
    || c == '\U{00A0}' || c == '\U{1680}' || ('\U{2000}' <= c <= '\U{200A}')
    || c == '\U{2028}' || c == '\U{2029}' || c == '\U{202F}' || c == '\U{205F}'
    || c == '\U{3000}'
  }

  /** Drops the leading characters satisfying `isSpace`. */
  function TrimStart(s: string, isSpace: char -> bool): (r: string)
    ensures |r| <= |s|
    decreases |s|
  {
    if |s| > 0 && isSpace(s[0]) then TrimStart(s[1..], isSpace) else s
  }

  /** What `TrimStart` keeps is a suffix that starts with a non-space, and
      what it drops is all space. */
  lemma {:induction false} TrimStartSpec(s: string, isSpace: char -> bool)
    ensures var r := TrimStart(s, isSpace);
            && |r| <= |s| && r == s[|s| - |r|..]
            && (forall i :: 0 <= i < |s| - |r| ==> isSpace(s[i]))
            && (|r| > 0 ==> !isSpace(r[0]))
    decreases |s|
  {
    if |s| > 0 && isSpace(s[0]) {
      TrimStartSpec(s[1..], isSpace);
      var r := TrimStart(s, isSpace);
      assert r == TrimStart(s[1..], isSpace);
      forall i | 1 <= i < |s| - |r| ensures isSpace(s[i]) {
        assert s[i] == s[1..][i - 1];
      }
    }
  }

  /** Drops the trailing characters satisfying `isSpace`. */
  function TrimEnd(s: string, isSpace: char -> bool): (r: string)
    ensures |r| <= |s|
    decreases |s|
  {
    if |s| > 0 && isSpace(s[|s| - 1]) then TrimEnd(s[..|s| - 1], isSpace) else s
  }

  /** What `TrimEnd` keeps is a prefix that ends with a non-space, and what
      it drops is all space. */
  lemma {:induction false} TrimEndSpec(s: string, isSpace: char -> bool)
    ensures var r := TrimEnd(s, isSpace);
            && |r| <= |s| && r == s[..|r|]
            && (forall i :: |r| <= i < |s| ==> isSpace(s[i]))
            && (|r| > 0 ==> !isSpace(r[|r| - 1]))
    decreases |s|
  {
    if |s| > 0 && isSpace(s[|s| - 1]) {
      var init := s[..|s| - 1];
      TrimEndSpec(init, isSpace);
      var r := TrimEnd(s, isSpace);
      assert r == TrimEnd(init, isSpace);
      forall i | |r| <= i < |s| - 1 ensures isSpace(s[i]) {
        assert s[i] == init[i];
      }
    }
  }

  /** Removes leading and trailing `isSpace` characters: the result is the
      contiguous middle of `s` that begins and ends with a non-space, and
      everything cut off on either side is space. */
  function TrimBy(s: string, isSpace: char -> bool): (r: string)
    ensures var a := |s| - |TrimStart(s, isSpace)|;
            && a + |r| <= |s| && r == s[a..a + |r|]
            && (forall i :: 0 <= i < a ==> isSpace(s[i]))
            && (forall i :: a + |r| <= i < |s| ==> isSpace(s[i]))
    ensures |r| > 0 ==> !isSpace(r[0]) && !isSpace(r[|r| - 1])
  {
    TrimStartSpec(s, isSpace);
    TrimEndSpec(TrimStart(s, isSpace), isSpace);
    TrimBothEnds(s, TrimStart(s, isSpace), TrimEnd(TrimStart(s, isSpace), isSpace), isSpace);
    TrimEnd(TrimStart(s, isSpace), isSpace)
  }

  /** A suffix of `s` with only spaces before it, cut to a prefix with
      only spaces after it, is a middle slice of `s` with spaces on both
      sides. */
  lemma TrimBothEnds(s: string, t: string, r: string, isSpace: char -> bool)
    requires |t| <= |s| && t == s[|s| - |t|..]
    requires forall i :: 0 <= i < |s| - |t| ==> isSpace(s[i])
    requires |t| > 0 ==> !isSpace(t[0])
    requires |r| <= |t| && r == t[..|r|]
    requires forall i :: |r| <= i < |t| ==> isSpace(t[i])
    requires |r| > 0 ==> !isSpace(r[|r| - 1])
    ensures var a := |s| - |t|;
            && a + |r| <= |s| && r == s[a..a + |r|]
            && (forall i :: 0 <= i < a ==> isSpace(s[i]))
            && (forall i :: a + |r| <= i < |s| ==> isSpace(s[i]))
    ensures |r| > 0 ==> !isSpace(r[0]) && !isSpace(r[|r| - 1])
  {
    var a := |s| - |t|;
    assert r == s[a..a + |r|];
    forall i | a + |r| <= i < |s| ensures isSpace(s[i]) {
      assert s[i] == t[i - a];
    }
    if |r| > 0 {
      assert r[0] == t[0];
    }
  }


  /** JavaScript `trim()`. */
  function Trim(s: string): string {
    TrimBy(s, IsJsSpace)
  }

  /** Kotlin `trim()`. */
  function KTrim(s: string): string {
    TrimBy(s, IsKotlinSpace)
  }

  /** No leading or trailing JavaScript white space. */
  predicate Trimmed(s: string) {
    |s| == 0 || (!IsJsSpace(s[0]) && !IsJsSpace(s[|s| - 1]))
  }

  /** `Trimmed` is exactly being one's own JavaScript trim. */
  lemma TrimmedIff(s: string)
    ensures Trimmed(s) <==> Trim(s) == s
    ensures Trimmed(Trim(s))
  {
    if Trimmed(s) { TrimUnchanged(s, IsJsSpace); }
  }

  /** A string that neither starts nor ends with a space is its own trim. */
  lemma TrimUnchanged(s: string, isSpace: char -> bool)
    requires |s| == 0 || (!isSpace(s[0]) && !isSpace(s[|s| - 1]))
    ensures TrimBy(s, isSpace) == s
  {
  }

  /** Trimming only removes characters. */
  lemma TrimSubset(s: string, isSpace: char -> bool)
    ensures forall c :: c in TrimBy(s, isSpace) ==> c in s
  {
    var r := TrimBy(s, isSpace);
    var a := |s| - |TrimStart(s, isSpace)|;
    forall c | c in r ensures c in s {
      var i :| 0 <= i < |r| && r[i] == c;
      assert s[a + i] == c;
    }
  }

  /** Trimming keeps every non-space character, with its multiplicity. */
  lemma TrimKeepsCount(s: string, isSpace: char -> bool, c: char)
    requires !isSpace(c)
    ensures multiset(TrimBy(s, isSpace))[c] == multiset(s)[c]
  {
    var r := TrimBy(s, isSpace);
    var a := |s| - |TrimStart(s, isSpace)|;
    var pre, post := s[..a], s[a + |r|..];
    assert s == pre + r + post;
    assert c !in pre by {
      forall i | 0 <= i < |pre| ensures pre[i] != c { assert isSpace(s[i]); }
    }
    assert c !in post by {
      forall i | 0 <= i < |post| ensures post[i] != c { assert isSpace(s[a + |r| + i]); }
    }
    assert multiset(s) == multiset(pre) + multiset(r) + multiset(post);
  }

  /** Trimming twice is trimming once. */
  lemma TrimIdempotent(s: string, isSpace: char -> bool)
    ensures TrimBy(TrimBy(s, isSpace), isSpace) == TrimBy(s, isSpace)
  {
    TrimUnchanged(TrimBy(s, isSpace), isSpace);
  }

  /** A string made only of spaces trims to "", and only such a string does. */
  lemma TrimEmptyIff(s: string, isSpace: char -> bool)
    ensures TrimBy(s, isSpace) == "" <==> forall i :: 0 <= i < |s| ==> isSpace(s[i])
  {
  }

  /** Leading spaces in front of a word are exactly what `TrimStart` drops. */
  lemma {:induction false} TrimStartPrefix(sp: string, x: string, isSpace: char -> bool)
    requires forall i :: 0 <= i < |sp| ==> isSpace(sp[i])
    requires |x| == 0 || !isSpace(x[0])
    ensures TrimStart(sp + x, isSpace) == x
    decreases |sp|
  {
    if |sp| == 0 {
      assert sp + x == x;
    } else {
      assert (sp + x)[1..] == sp[1..] + x;
      TrimStartPrefix(sp[1..], x, isSpace);
    }
  }

  /** Trailing spaces after a word are exactly what `TrimEnd` drops. */
  lemma {:induction false} TrimEndSuffix(x: string, sp: string, isSpace: char -> bool)
    requires forall i :: 0 <= i < |sp| ==> isSpace(sp[i])
    requires |x| == 0 || !isSpace(x[|x| - 1])
    ensures TrimEnd(x + sp, isSpace) == x
    decreases |sp|
  {
    if |sp| == 0 {
      assert x + sp == x;
    } else {
      assert (x + sp)[..|x + sp| - 1] == x + sp[..|sp| - 1];
      TrimEndSuffix(x, sp[..|sp| - 1], isSpace);
    }
  }

  /** A word between runs of spaces trims to the word. */
  lemma TrimPadded(sp1: string, x: string, sp2: string, isSpace: char -> bool)
    requires forall i :: 0 <= i < |sp1| ==> isSpace(sp1[i])
    requires forall i :: 0 <= i < |sp2| ==> isSpace(sp2[i])
    requires |x| > 0 && !isSpace(x[0]) && !isSpace(x[|x| - 1])
    ensures TrimBy(sp1 + x + sp2, isSpace) == x
  {
    assert sp1 + x + sp2 == sp1 + (x + sp2);
    TrimStartPrefix(sp1, x + sp2, isSpace);
    TrimEndSuffix(x, sp2, isSpace);
  }

  // ---------------------------------------------------------------------------
  // takeWhile and the Hebrew block
  // ---------------------------------------------------------------------------

  /** The longest prefix of `s` whose elements all satisfy `p`
      (the helper `takeWhile` of both Node extractors). */
  function TakeWhile<T>(s: seq<T>, p: T -> bool): (r: seq<T>)
    ensures r <= s
    ensures forall i :: 0 <= i < |r| ==> p(r[i])
    ensures |r| < |s| ==> !p(s[|r|])
    decreases |s|
  {
    if |s| > 0 && p(s[0]) then [s[0]] + TakeWhile(s[1..], p) else []
  }

  /** `TakeWhile` stops exactly at the first element that fails. */
  lemma {:induction false} TakeWhileUpTo<T>(x: seq<T>, y: seq<T>, p: T -> bool)
    requires forall i :: 0 <= i < |x| ==> p(x[i])
    requires |y| == 0 || !p(y[0])
    ensures TakeWhile(x + y, p) == x
    decreases |x|
  {
    if |x| == 0 {
      assert x + y == y;
    } else {
      assert (x + y)[1..] == x[1..] + y;
      TakeWhileUpTo(x[1..], y, p);
    }
  }

  /** Every element `TakeWhile` keeps satisfies `p` and comes from `s`. */
  lemma TakeWhileSubset<T>(s: seq<T>, p: T -> bool)
    ensures forall x :: x in TakeWhile(s, p) ==> p(x) && x in s
  {
    var r := TakeWhile(s, p);
    forall x | x in r ensures p(x) && x in s {
      var i :| 0 <= i < |r| && r[i] == x;
      assert s[i] == x;
    }
  }

  /** A character in the Unicode Hebrew block U+0590..U+05FF, the regular
      expression `[֐-׿]`. */
  predicate IsHebrew(c: char) {
    '\U{0590}' <= c <= '\U{05FF}'
  }

  // ---------------------------------------------------------------------------
  // Decimal digits
  // ---------------------------------------------------------------------------

  /** An ASCII decimal digit: what `\d` matches in JavaScript and Java regexes. */
  predicate IsDigit(c: char) {
    '0' <= c <= '9'
  }

  predicate AllDigits(s: string) {
    forall i :: 0 <= i < |s| ==> IsDigit(s[i])
  }

  function DigitValue(c: char): (d: nat)
    requires IsDigit(c)
    ensures d <= 9
  {
    c as int - '0' as int
  }

  function DigitChar(d: nat): (c: char)
    requires d <= 9
    ensures IsDigit(c) && DigitValue(c) == d
  {
    (d + '0' as int) as char
  }

  /** The value of a string of decimal digits, most significant first. */
  function DigitsValue(s: string): nat
    requires AllDigits(s)
    decreases |s|
  {
    if |s| == 0 then 0
    else 10 * DigitsValue(s[..|s| - 1]) + DigitValue(s[|s| - 1])
  }

  /** The shortest decimal rendering of `n` ("0" for zero). */
  function NatDigits(n: nat): (s: string)
    ensures |s| >= 1 && AllDigits(s)
    ensures DigitsValue(s) == n
    decreases n
  {
    if n < 10 then [DigitChar(n)]
    else
      var s := NatDigits(n / 10) + [DigitChar(n % 10)];
      assert s[..|s| - 1] == NatDigits(n / 10);
      s
  }

  /** `n` in decimal, left-padded with '0' to at least `width` characters. */
  function PadNat(n: nat, width: nat): (s: string)
    ensures AllDigits(s) && DigitsValue(s) == n
    ensures |s| >= width
  {
    var d := NatDigits(n);
    var zeros := if |d| < width then seq(width - |d|, _ => '0') else [];
    ZerosPrefix(zeros, d);
    zeros + d
  }

  /** Leading zeros do not change the value of a digit string. */
  lemma {:induction false} ZerosPrefix(zeros: string, d: string)
    requires forall i :: 0 <= i < |zeros| ==> zeros[i] == '0'
    requires AllDigits(d)
    ensures AllDigits(zeros + d) && DigitsValue(zeros + d) == DigitsValue(d)
    decreases |d|
  {
    var s := zeros + d;
    assert AllDigits(s) by {
      forall i | 0 <= i < |s| ensures IsDigit(s[i]) {
        if i < |zeros| { assert s[i] == zeros[i]; } else { assert s[i] == d[i - |zeros|]; }
      }
    }
    if |d| == 0 {
      AllZeros(zeros);
      assert s == zeros;
    } else {
      ZerosPrefix(zeros, d[..|d| - 1]);
      assert s[..|s| - 1] == zeros + d[..|d| - 1];
    }
  }

  lemma {:induction false} AllZeros(zeros: string)
    requires forall i :: 0 <= i < |zeros| ==> zeros[i] == '0'
    ensures AllDigits(zeros) && DigitsValue(zeros) == 0
    decreases |zeros|
  {
    if |zeros| > 0 {
      AllZeros(zeros[..|zeros| - 1]);
    }
  }

  // ---------------------------------------------------------------------------
  // The year rule: the first run of four digits (regex `\d{4}`)
  // ---------------------------------------------------------------------------

  predicate FourDigitsAt(s: string, i: nat) {
    i + 4 <= |s| && IsDigit(s[i]) && IsDigit(s[i + 1]) && IsDigit(s[i + 2]) && IsDigit(s[i + 3])
  }

  function FourDigitValue(s: string, i: nat): (v: nat)
    requires FourDigitsAt(s, i)
    ensures v <= 9999
  {
    1000 * DigitValue(s[i]) + 100 * DigitValue(s[i + 1]) + 10 * DigitValue(s[i + 2]) + DigitValue(s[i + 3])
  }

  /** The leftmost position at or after `from` where four digits start. */
  function FindFourDigits(s: string, from: nat): (r: Option<nat>)
    ensures r.Some? ==> from <= r.value && FourDigitsAt(s, r.value)
                        && forall j: nat :: from <= j < r.value ==> !FourDigitsAt(s, j)
    ensures r.None? ==> forall j: nat :: from <= j ==> !FourDigitsAt(s, j)
    decreases |s| - from
  {
    if from + 4 > |s| then None
    else if FourDigitsAt(s, from) then Some(from)
    else FindFourDigits(s, from + 1)
  }

  /** `parseInt(text.match(/\d{4}/)[0])`, or absent when nothing matches. */
  function FirstFourDigits(s: string): (r: Option<nat>)
    ensures r.Some? ==> r.value <= 9999
    ensures r.None? <==> forall j: nat :: !FourDigitsAt(s, j)
    ensures r.Some? ==> exists i: nat :: FourDigitsAt(s, i) && r.value == FourDigitValue(s, i)
                                    && forall j: nat :: j < i ==> !FourDigitsAt(s, j)
  {
    match FindFourDigits(s, 0)
    case Some(i) => Some(FourDigitValue(s, i))
    case None => None
  }

  // ---------------------------------------------------------------------------
  // Kotlin `substringBefore`
  // ---------------------------------------------------------------------------

  predicate OccursAt(s: string, d: string, i: nat) {
    i + |d| <= |s| && s[i..i + |d|] == d
  }

  /** The leftmost occurrence of `d` in `s` at or after `from`. */
  function IndexOf(s: string, d: string, from: nat): (r: Option<nat>)
    ensures r.Some? ==> from <= r.value && OccursAt(s, d, r.value)
                        && forall j: nat :: from <= j < r.value ==> !OccursAt(s, d, j)
    ensures r.None? ==> forall j: nat :: from <= j ==> !OccursAt(s, d, j)
    decreases |s| - from
  {
    if from + |d| > |s| then None
    else if s[from..from + |d|] == d then Some(from)
    else IndexOf(s, d, from + 1)
  }

  /** Kotlin `s.substringBefore(d)`: the part before the first occurrence of
      `d`, or all of `s` when `d` does not occur. */
  function SubstringBefore(s: string, d: string): (r: string)
    ensures r <= s
    ensures (exists i: nat :: OccursAt(s, d, i)) ==> OccursAt(s, d, |r|) && forall j: nat :: j < |r| ==> !OccursAt(s, d, j)
    ensures (forall i: nat :: !OccursAt(s, d, i)) ==> r == s
  {
    match IndexOf(s, d, 0)
    case Some(i) => s[..i]
    case None => s
  }
}
