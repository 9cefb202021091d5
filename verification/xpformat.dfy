/** The two XP renderings of `utils.py` — `format_xp_only` and
    `format_xp_value` — and parsers that read their numbers back, so that each
    rendering is shown to carry exactly the numbers it was given. */
module XpFormat {
  import opened Wrappers
  import opened Decimal
  import opened Text

  /** Width of the right-aligned xp field. */
  const XpWidth := 9
  /** Width of the right-aligned level field. */
  const LevelWidth := 3
  /** Width of the right-aligned recent-xp field. */
  const RecentWidth := 6

  /** `f"{xp:>9,} XP"`: grouped xp right-aligned to 9 characters, then " XP". */
  function FormatXpOnly(xp: int): (r: seq<char>)
    ensures |r| == Max(XpWidth, |Commas(xp)|) + 3
    ensures r[|r| - 3..] == " XP"
    ensures LStrip(r[..|r| - 3]) == Commas(xp)
  {
    var field := RightJustify(Commas(xp), XpWidth);
    LStripJustified(Commas(xp), XpWidth);
    assert (field + " XP")[..|field|] == field;
    field + " XP"
  }

  /** `f"lvl {level:>3} ({xp:>9,} XP)"`: "lvl ", the level right-aligned to 3
      characters, " (", the grouped xp right-aligned to 9 characters, " XP)". */
  function XpBase(xp: int, level: int): (b: seq<char>)
    ensures var lw, xw := Max(LevelWidth, |IntStr(level)|), Max(XpWidth, |Commas(xp)|);
      && |b| == 4 + lw + 2 + xw + 4
      && b[..4] == "lvl "
      && LStrip(b[4..4 + lw]) == IntStr(level)
      && b[4 + lw..4 + lw + 2] == " ("
      && LStrip(b[4 + lw + 2..|b| - 4]) == Commas(xp)
      && b[|b| - 4..] == " XP)"
  {
    var lf := RightJustify(IntStr(level), LevelWidth);
    var xf := RightJustify(Commas(xp), XpWidth);
    LStripJustified(IntStr(level), LevelWidth);
    LStripJustified(Commas(xp), XpWidth);
    BaseSlices(lf, xf);
    "lvl " + lf + " (" + xf + " XP)"
  }

  /** Where the two fields sit in the base layout. */
  lemma BaseSlices(lf: seq<char>, xf: seq<char>)
    ensures var b := "lvl " + lf + " (" + xf + " XP)";
      && |b| == 4 + |lf| + 2 + |xf| + 4
      && b[..4] == "lvl "
      && b[4..4 + |lf|] == lf
      && b[4 + |lf|..4 + |lf| + 2] == " ("
      && b[4 + |lf| + 2..|b| - 4] == xf
      && b[|b| - 4..] == " XP)"
  {
  }

  /** Whether a recent-xp suffix is shown: `new_xp is not None and new_xp > 0`. */
  predicate HasRecent(newXp: Option<int>) {
    newXp.Some? && newXp.value > 0
  }

  /** The level/xp rendering, with `" (+" + f"{new_xp:>6,}" + ")"` appended exactly
      when a positive recent xp is given. */
  function FormatXpValue(xp: int, level: int, newXp: Option<int>): (r: seq<char>)
    ensures r == XpBase(xp, level) + Suffix(newXp)
    ensures r == XpBase(xp, level) <==> !HasRecent(newXp)
  {
    XpBase(xp, level) + Suffix(newXp)
  }

  /** The longest prefix of number characters, and what follows it. */
  function SpanNum(s: seq<char>): (p: (seq<char>, seq<char>))
    ensures p.0 + p.1 == s
    decreases |s|
  {
    if s == [] || !NumChar(s[0]) then ([], s)
    else
      var (t, r) := SpanNum(s[1..]);
      ([s[0]] + t, r)
  }

  lemma {:induction false} SpanNumAppend(t: seq<char>, r: seq<char>)
    requires forall i :: 0 <= i < |t| ==> NumChar(t[i])
    requires r == [] || !NumChar(r[0])
    ensures SpanNum(t + r) == (t, r)
    decreases |t|
  {
    if t == [] {
      assert t + r == r;
    } else {
      assert (t + r)[1..] == t[1..] + r;
      SpanNumAppend(t[1..], r);
      assert [t[0]] + t[1..] == t;
    }
  }

  /** Reading one right-aligned number field: skip the padding, take the number. */
  lemma ReadField(k: nat, tok: seq<char>, rest: seq<char>)
    requires |tok| >= 1 && tok[0] != ' '
    requires forall i :: 0 <= i < |tok| ==> NumChar(tok[i])
    requires rest == [] || !NumChar(rest[0])
    ensures SpanNum(LStrip(Spaces(k) + tok + rest)) == (tok, rest)
  {
    assert Spaces(k) + tok + rest == Spaces(k) + (tok + rest);
    LStripSpaces(k, tok + rest);
    SpanNumAppend(tok, rest);
  }

  /** Reads the xp back from a `FormatXpOnly` rendering. */
  function ParseXpOnly(v: seq<char>): Option<int> {
    if |v| < 3 || v[|v| - 3..] != " XP" then None
    else ParseInt(LStrip(v[..|v| - 3]))
  }

  /** The numbers a `FormatXpValue` rendering shows; `recent` is 0 when there is
      no suffix. */
  datatype XpFields = XpFields(level: int, xp: int, recent: int)

  /** Reads level, xp and recent xp back from a `FormatXpValue` rendering. */
  function ParseXpValue(v: seq<char>): Option<XpFields> {
    if |v| < 4 || v[..4] != "lvl " then None
    else
      var (lt, r1) := SpanNum(LStrip(v[4..]));
      if |r1| < 2 || r1[..2] != " (" then None
      else
        var (xt, r2) := SpanNum(LStrip(r1[2..]));
        if |r2| < 4 || r2[..4] != " XP)" then None
        else
          match (ParseInt(lt), ParseInt(xt), ParseRecent(r2[4..]))
          case (Some(l), Some(x), Some(n)) => Some(XpFields(l, x, n))
          case _ => None
  }

  /** Reads the optional `" (+n)"` suffix; no suffix reads as 0. */
  function ParseRecent(s: seq<char>): Option<int> {
    if s == [] then Some(0)
    else if |s| < 3 || s[..3] != " (+" then None
    else
      var (nt, r) := SpanNum(LStrip(s[3..]));
      if r != ")" then None else ParseInt(nt)
  }

  /** The xp-only rendering carries exactly `xp`. */
  lemma XpOnlyRoundTrip(xp: int)
    ensures ParseXpOnly(FormatXpOnly(xp)) == Some(xp)
  {
    CommasParses(xp);
  }

  /** The recent-xp shown: the given value when positive, otherwise none (0). */
  function RecentShown(newXp: Option<int>): int {
    if HasRecent(newXp) then newXp.value else 0
  }

  /** Parsing a text laid out as `FormatXpValue` lays it out reads its three
      number tokens. */
  lemma ParseLayout(a: nat, lv: seq<char>, b: nat, xs: seq<char>, suffix: seq<char>)
    requires |lv| >= 1 && lv[0] != ' ' && forall i :: 0 <= i < |lv| ==> NumChar(lv[i])
    requires |xs| >= 1 && xs[0] != ' ' && forall i :: 0 <= i < |xs| ==> NumChar(xs[i])
    ensures var v := "lvl " + (Spaces(a) + lv + (" (" + (Spaces(b) + xs + (" XP)" + suffix))));
      ParseXpValue(v) ==
        match (ParseInt(lv), ParseInt(xs), ParseRecent(suffix))
        case (Some(l), Some(x), Some(n)) => Some(XpFields(l, x, n))
        case _ => None
  {
    var r2 := " XP)" + suffix;
    var r1 := " (" + (Spaces(b) + xs + r2);
    var v := "lvl " + (Spaces(a) + lv + r1);
    assert v[..4] == "lvl ";
    assert v[4..] == Spaces(a) + lv + r1;
    ReadField(a, lv, r1);
    assert r1[..2] == " (";
    assert r1[2..] == Spaces(b) + xs + r2;
    ReadField(b, xs, r2);
    assert r2[..4] == " XP)";
    assert r2[4..] == suffix;
  }

  /** The recent-xp suffix of `FormatXpValue`, `f" (+{new_xp:>6,})"`: " (+",
      the grouped recent xp right-aligned to 6 characters, ")". It is empty
      when no positive recent xp is given. */
  function Suffix(newXp: Option<int>): (s: seq<char>)
    ensures !HasRecent(newXp) ==> s == []
    ensures HasRecent(newXp) ==>
      && |s| == Max(RecentWidth, |Commas(newXp.value)|) + 4
      && s[..3] == " (+"
      && LStrip(s[3..|s| - 1]) == Commas(newXp.value)
      && s[|s| - 1] == ')'
  {
    if HasRecent(newXp) then
      var field := RightJustify(Commas(newXp.value), RecentWidth);
      LStripJustified(Commas(newXp.value), RecentWidth);
      SuffixSlices(field);
      " (+" + field + ")"
    else []
  }

  /** Where the field sits in the suffix layout. */
  lemma SuffixSlices(field: seq<char>)
    ensures var s := " (+" + field + ")";
      |s| == |field| + 4 && s[..3] == " (+" && s[3..|s| - 1] == field && s[|s| - 1] == ')'
  {
  }

  lemma FormatLayout(xp: int, level: int, newXp: Option<int>)
    ensures FormatXpValue(xp, level, newXp) ==
      "lvl " + (Spaces(PadCount(IntStr(level), LevelWidth)) + IntStr(level) +
      (" (" + (Spaces(PadCount(Commas(xp), XpWidth)) + Commas(xp) + (" XP)" + Suffix(newXp)))))
  {
    var lvField := RightJustify(IntStr(level), LevelWidth);
    var xpField := RightJustify(Commas(xp), XpWidth);
    assert lvField == Spaces(PadCount(IntStr(level), LevelWidth)) + IntStr(level);
    assert xpField == Spaces(PadCount(Commas(xp), XpWidth)) + Commas(xp);
    Assoc5("lvl ", lvField, " (", xpField, " XP)", Suffix(newXp));
  }

  lemma Assoc5<T>(a: seq<T>, b: seq<T>, c: seq<T>, d: seq<T>, e: seq<T>, f: seq<T>)
    ensures a + b + c + d + e + f == a + (b + (c + (d + (e + f))))
  {
  }

  /** The level/xp rendering carries exactly the level, the xp and (when positive)
      the recent xp it was given. */
  lemma XpValueRoundTrip(xp: int, level: int, newXp: Option<int>)
    ensures ParseXpValue(FormatXpValue(xp, level, newXp)) == Some(XpFields(level, xp, RecentShown(newXp)))
  {
    FormatLayout(xp, level, newXp);
    IntStrChars(level);
    CommasChars(xp);
    ParseLayout(PadCount(IntStr(level), LevelWidth), IntStr(level),
                PadCount(Commas(xp), XpWidth), Commas(xp), Suffix(newXp));
    IntStrParses(level);
    CommasParses(xp);
    RecentRoundTrip(newXp);
  }

  lemma RecentRoundTrip(newXp: Option<int>)
    ensures ParseRecent(Suffix(newXp)) == Some(RecentShown(newXp))
  {
    if HasRecent(newXp) {
      var ns := Commas(newXp.value);
      var field := RightJustify(ns, RecentWidth);
      assert field == Spaces(PadCount(ns, RecentWidth)) + ns;
      CommasChars(newXp.value);
      ReadRecent(PadCount(ns, RecentWidth), ns);
      CommasParses(newXp.value);
    }
  }

  /** Reading a suffix laid out around a right-aligned number gives that number. */
  lemma ReadRecent(c: nat, ns: seq<char>)
    requires |ns| >= 1 && ns[0] != ' '
    requires forall i :: 0 <= i < |ns| ==> NumChar(ns[i])
    ensures ParseRecent(" (+" + (Spaces(c) + ns) + ")") == ParseInt(ns)
  {
    var s := " (+" + (Spaces(c) + ns) + ")";
    assert s[..3] == " (+";
    assert s[3..] == Spaces(c) + ns + ")";
    ReadField(c, ns, ")");
  }

  lemma NumNoNewline(s: seq<char>)
    requires forall i :: 0 <= i < |s| ==> NumChar(s[i])
    ensures NoNewline(s)
  {
    forall i | 0 <= i < |s| ensures s[i] != '\n' {
      assert NumChar(s[i]);
    }
  }

  /** A right-justified number field holds no newline. */
  lemma FieldNoNewline(k: nat, s: seq<char>)
    requires forall i :: 0 <= i < |s| ==> NumChar(s[i])
    ensures NoNewline(Spaces(k) + s)
  {
    NumNoNewline(s);
    NoNewlineAppend(Spaces(k), s);
  }

  /** The xp-only rendering is a single line. */
  lemma XpOnlyNoNewline(xp: int)
    ensures NoNewline(FormatXpOnly(xp))
  {
    var field := RightJustify(Commas(xp), XpWidth);
    assert field == Spaces(PadCount(Commas(xp), XpWidth)) + Commas(xp);
    CommasChars(xp);
    FieldNoNewline(PadCount(Commas(xp), XpWidth), Commas(xp));
    assert FormatXpOnly(xp) == field + " XP";
    NoNewlineAppend(field, " XP");
  }

  /** The recent-xp suffix is a single line. */
  lemma SuffixNoNewline(newXp: Option<int>)
    ensures NoNewline(Suffix(newXp))
  {
    if HasRecent(newXp) {
      var ns := Commas(newXp.value);
      CommasChars(newXp.value);
      FieldNoNewline(PadCount(ns, RecentWidth), ns);
      WrapNoNewline(RightJustify(ns, RecentWidth));
    }
  }

  lemma WrapNoNewline(field: seq<char>)
    requires NoNewline(field)
    ensures NoNewline(" (+" + field + ")")
  {
    NoNewlineAppend(" (+", field);
    NoNewlineAppend(" (+" + field, ")");
  }

  /** The level/xp layout around single-line fields is a single line. */
  lemma LayoutNoNewline(lf: seq<char>, xf: seq<char>, sfx: seq<char>)
    requires NoNewline(lf) && NoNewline(xf) && NoNewline(sfx)
    ensures NoNewline("lvl " + (lf + (" (" + (xf + (" XP)" + sfx)))))
  {
    NoNewlineAppend(" XP)", sfx);
    NoNewlineAppend(xf, " XP)" + sfx);
    NoNewlineAppend(" (", xf + (" XP)" + sfx));
    NoNewlineAppend(lf, " (" + (xf + (" XP)" + sfx)));
    NoNewlineAppend("lvl ", lf + (" (" + (xf + (" XP)" + sfx))));
  }

  /** The level/xp rendering is a single line. */
  lemma XpValueNoNewline(xp: int, level: int, newXp: Option<int>)
    ensures NoNewline(FormatXpValue(xp, level, newXp))
  {
    FormatLayout(xp, level, newXp);
    IntStrChars(level);
    CommasChars(xp);
    FieldNoNewline(PadCount(IntStr(level), LevelWidth), IntStr(level));
    FieldNoNewline(PadCount(Commas(xp), XpWidth), Commas(xp));
    SuffixNoNewline(newXp);
    LayoutNoNewline(Spaces(PadCount(IntStr(level), LevelWidth)) + IntStr(level),
                    Spaces(PadCount(Commas(xp), XpWidth)) + Commas(xp),
                    Suffix(newXp));
  }
}
