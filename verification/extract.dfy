/** Field rules shared by both Node extractors: the header-date transform,
    the alt-name rule, JavaScript truthiness of optional strings and the
    `dateTime` stamp. */
module NodeExtract {
  import opened Wrappers
  import opened Text
  import opened Model
  import opened Dom

  // ---------------------------------------------------------------------------
  // JavaScript truthiness of optional strings
  // ---------------------------------------------------------------------------

  /** `x || undefined` for an optional string: "" counts as absent. */
  function Truthy(x: Option<string>): (r: Option<string>)
    ensures r.Some? <==> x.Some? && x.value != ""
    ensures r.Some? ==> r == x && r.value != ""
  {
    if x.Some? && x.value != "" then x else None
  }

  /** `a || b || undefined`: the first present, non-empty string. */
  function FirstTruthy(a: Option<string>, b: Option<string>): (r: Option<string>)
    ensures r.Some? <==> Truthy(a).Some? || Truthy(b).Some?
    ensures r.Some? ==> r.value != ""
    ensures Truthy(a).Some? ==> r == a
    ensures Truthy(a).None? ==> r == Truthy(b)
  {
    if Truthy(a).Some? then a else Truthy(b)
  }

  // ---------------------------------------------------------------------------
  // The header date: "שבת 25.01.25" becomes "2025-01-25"
  // ---------------------------------------------------------------------------

  /** The third piece gets the century prefix "20"; the others are kept. */
  function CenturyPrefix(parts: seq<string>): (r: seq<string>)
    ensures |r| == |parts|
    ensures forall i :: 0 <= i < |parts| ==> r[i] == if i == 2 then "20" + parts[i] else parts[i]
  {
    seq(|parts|, i requires 0 <= i < |parts| => if i == 2 then "20" + parts[i] else parts[i])
  }

  /** The optional chain on the header text: its second space-separated
      token, split on '.', year piece prefixed with "20", reversed and
      joined with '-'. Absent when there is no header or no second token. */
  function HeaderChain(header: Option<string>): (r: Option<string>)
    ensures r.Some? <==> header.Some? && |Split(header.value, ' ')| >= 2
  {
    match header
    case None => None
    case Some(h) =>
      var tokens := Split(h, ' ');
      if |tokens| < 2 then None
      else Some(Join(Reverse(CenturyPrefix(Split(tokens[1], '.'))), '-'))
  }

  /** A header "<weekday> <dd>.<mm>.<yy>" gives "20<yy>-<mm>-<dd>". */
  lemma HeaderChainOfDate(weekday: string, d: string, m: string, y: string)
    requires ' ' !in weekday
    requires ' ' !in d && ' ' !in m && ' ' !in y
    requires '.' !in d && '.' !in m && '.' !in y
    ensures HeaderChain(Some(weekday + " " + d + "." + m + "." + y)) == Some("20" + y + "-" + m + "-" + d)
  {
    var tok := d + "." + m + "." + y;
    JoinThree(d, m, y, '.');
    assert Join([d, m, y], '.') == tok;
    assert ' ' !in tok by {
      forall i | 0 <= i < |tok| ensures tok[i] != ' ' {
        if i < |d| { assert tok[i] == d[i]; }
        else if i == |d| { }
        else if i < |d| + 1 + |m| { assert tok[i] == m[i - |d| - 1]; }
        else if i == |d| + 1 + |m| { }
        else { assert tok[i] == y[i - |d| - 2 - |m|]; }
      }
    }
    JoinThree(weekday, tok, tok, ' ');
    assert weekday + " " + d + "." + m + "." + y == Join([weekday, tok], ' ');
    SplitJoin([weekday, tok], ' ');
    SplitJoin([d, m, y], '.');
    var parts := CenturyPrefix([d, m, y]);
    assert parts == [d, m, "20" + y];
    assert Reverse(parts) == ["20" + y, m, d];
    JoinThree("20" + y, m, d, '-');
  }

  /** The sample header of the schedule page. */
  lemma HeaderChainExample()
    ensures HeaderChain(Some("שבת 25.01.25")) == Some("2025-01-25")
  {
    HeaderChainOfDate("שבת", "25", "01", "25");
    assert "שבת" + " " + "25" + "." + "01" + "." + "25" == "שבת 25.01.25";
    assert "20" + "25" + "-" + "01" + "-" + "25" == "2025-01-25";
  }

  // ---------------------------------------------------------------------------
  // The alt name
  // ---------------------------------------------------------------------------

  predicate NotHebrew(c: char) {
    !IsHebrew(c)
  }

  /** The second '|' piece of the description, trimmed ("" when missing). */
  function SecondSegment(description: string): (r: string)
    ensures Trimmed(r)
  {
    var parts := Split(description, '|');
    if |parts| >= 2 then
      TrimmedIff(parts[1]);
      Trim(parts[1])
    else ""
  }

  /** The Hebrew cut of a string is trimmed and free of Hebrew-block characters. */
  lemma HebrewCutShape(s: string)
    ensures var a := Trim(TakeWhile(s, NotHebrew));
            Trimmed(a) && forall i :: 0 <= i < |a| ==> !IsHebrew(a[i])
  {
    var t := TakeWhile(s, NotHebrew);
    TrimmedIff(t);
    TrimSubset(t, IsJsSpace);
    var a := Trim(t);
    forall i | 0 <= i < |a| ensures !IsHebrew(a[i]) {
      assert a[i] in t;
    }
  }

  /** The alt name: the second '|' piece of the description, trimmed, cut
      before its first Hebrew-block character, trimmed again; "" is absent. */
  function AltName(description: string): (r: Option<string>)
    ensures r.Some? ==> r.value != "" && Trimmed(r.value)
    ensures r.Some? ==> forall i :: 0 <= i < |r.value| ==> !IsHebrew(r.value[i])
    ensures SecondSegment(description) == "" ==> r.None?
  {
    var a := Trim(TakeWhile(SecondSegment(description), NotHebrew));
    HebrewCutShape(SecondSegment(description));
    if a == "" then None else Some(a)
  }

  /** The second piece of "<prefix>|<segment>" is the trimmed segment. */
  lemma SecondSegmentOf(prefix: string, seg: string)
    requires '|' !in prefix && '|' !in seg
    ensures SecondSegment(prefix + "|" + seg) == Trim(seg)
  {
    assert prefix + "|" + seg == prefix + ['|'] + seg;
    SplitAtSeparator(prefix, seg, '|');
    SplitNoSeparator(prefix, '|');
    SplitNoSeparator(seg, '|');
  }

  /** A segment "<name><spaces><hebrew...>" is cut back to the name. */
  lemma HebrewCut(name: string, sp: string, hebrew: string)
    requires forall i :: 0 <= i < |sp| ==> IsJsSpace(sp[i])
    requires |name| > 0 && !IsJsSpace(name[0]) && !IsJsSpace(name[|name| - 1])
    requires forall i :: 0 <= i < |name| ==> !IsHebrew(name[i])
    requires |hebrew| > 0 && IsHebrew(hebrew[0])
    ensures Trim(TakeWhile(name + sp + hebrew, NotHebrew)) == name
  {
    var kept := name + sp;
    assert forall i :: 0 <= i < |kept| ==> NotHebrew(kept[i]) by {
      forall i | 0 <= i < |kept| ensures NotHebrew(kept[i]) {
        if i < |name| { assert kept[i] == name[i]; }
        else { assert kept[i] == sp[i - |name|]; assert IsJsSpace(kept[i]); }
      }
    }
    assert name + sp + hebrew == kept + hebrew;
    TakeWhileUpTo(kept, hebrew, NotHebrew);
    TrimPadded("", name, sp, IsJsSpace);
    assert "" + name + sp == kept;
  }

  /** The second piece of such a description is already trimmed. */
  lemma TrimmedSegment(prefix: string, seg: string)
    requires '|' !in prefix && '|' !in seg
    requires |seg| > 0 && !IsJsSpace(seg[0]) && !IsJsSpace(seg[|seg| - 1])
    ensures SecondSegment(prefix + "|" + seg) == seg
  {
    SecondSegmentOf(prefix, seg);
    TrimUnchanged(seg, IsJsSpace);
  }

  /** A description "<prefix>|<name> <hebrew...>" whose second piece holds a
      name free of Hebrew followed by Hebrew text yields that name. */
  lemma AltNameOfSegment(prefix: string, name: string, sp: string, hebrew: string)
    requires '|' !in prefix && '|' !in name && '|' !in sp && '|' !in hebrew
    requires forall i :: 0 <= i < |sp| ==> IsJsSpace(sp[i])
    requires |name| > 0 && !IsJsSpace(name[0]) && !IsJsSpace(name[|name| - 1])
    requires forall i :: 0 <= i < |name| ==> !IsHebrew(name[i])
    requires |hebrew| > 0 && IsHebrew(hebrew[0]) && !IsJsSpace(hebrew[|hebrew| - 1])
    ensures AltName(prefix + "|" + name + sp + hebrew) == Some(name)
  {
    var seg := name + sp + hebrew;
    assert prefix + "|" + name + sp + hebrew == prefix + "|" + seg;
    assert seg[0] == name[0] && seg[|seg| - 1] == hebrew[|hebrew| - 1];
    TrimmedSegment(prefix, seg);
    HebrewCut(name, sp, hebrew);
  }

  /** The alt name the extractor's own check expects for "הבעלים לשעבר": the
      description's second piece is the English name followed by the Hebrew one. */
  lemma AltNameExample()
    ensures AltName("דרמה " + "|" + "Ex-Husbands" + " " + "הבעלים לשעבר") == Some("Ex-Husbands")
  {
    var name, hebrew := "Ex-Husbands", "הבעלים לשעבר";
    assert forall i :: 0 <= i < |name| ==> !IsHebrew(name[i]);
    assert IsHebrew(hebrew[0]);
    AltNameOfSegment("דרמה ", name, " ", hebrew);
  }

  // ---------------------------------------------------------------------------
  // Title links, years and the dateTime stamp
  // ---------------------------------------------------------------------------

  /** `h3 a`, or the first `a` only when there is no `h3 a`. */
  function TitleLink(block: TitleBlock): (r: Option<Link>)
    ensures block.h3Link.Some? ==> r == block.h3Link
    ensures block.h3Link.None? ==> r == block.firstLink
  {
    if block.h3Link.Some? then block.h3Link else block.firstLink
  }

  /** The trimmed text of a link, "" when there is none. */
  function LinkTitle(link: Option<Link>): string {
    match link
    case Some(l) => Trim(l.text)
    case None => ""
  }

  /** The year: the value of the first four digits of the title paragraph. */
  function YearOf(paragraph: Option<string>): (r: Option<int>)
    ensures r.Some? ==> 0 <= r.value <= 9999
    ensures r.Some? <==> paragraph.Some? && exists j: nat :: FourDigitsAt(paragraph.value, j)
  {
    match paragraph
    case None => None
    case Some(p) =>
      match FirstFourDigits(p)
      case Some(v) => Some(v as int)
      case None => None
  }

  /** `date ? date + " " + time : time`. */
  function Stamp(date: string, time: string): (r: string)
    ensures date == "" ==> r == time
    ensures date != "" ==> |r| == |date| + 1 + |time| && r[..|date|] == date && r[|date|..] == " " + time
  {
    if date == "" then time else date + " " + time
  }
}
