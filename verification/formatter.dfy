/** `GistFormatter`: picks the languages to show for a display mode, renders
    the total line and one line per language, and joins them into the gist
    text. */
module Formatter {
  import opened Wrappers
  import opened Text
  import opened XpFormat
  import opened Models
  import opened Sorting

  /** The display mode (`StatsType`): level and xp, recent xp, or xp only. */
  datatype StatsType = LevelXp | RecentXp | Xp

  /** The "technologist" emoji that opens every title, four code points long. */
  const TitleEmoji: string := "\U{1F9D1}\U{1F3FB}\U{200D}\U{1F4BB}"
  const TopTitle: string := TitleEmoji + " My Code::Stats XP (Top Languages)"
  const RecentTitle: string := TitleEmoji + " My Code::Stats XP (Recent Languages)"

  /** Label of the first line. */
  const TotalTitle: string := "Total XP"
  /** The padding character of every content line. */
  const Separator: char := ':'

  /** The four lines shown instead of language lines when nothing was coded recently. */
  const NoRecentActivity: seq<FormattedLine> := [
    FormattedLine("Not been coding recently", "\U{1F648}"),
    FormattedLine("Probably busy with something else", "\U{1F5D3}"),
    FormattedLine("Or just taking a break", "\U{1F334}"),
    FormattedLine("But would be back to it soon!", "\U{1F913}")
  ]

  /** `get_title`: the gist file name for a mode. Every title begins with the
      emoji and the site name; the recent-languages title belongs to the recent
      mode alone and the top-languages title to the other two, so two modes
      share a title exactly when both or neither are the recent mode. */
  function Title(mode: StatsType): (t: string)
    ensures TitleEmoji + " My Code::Stats XP (" <= t
    ensures t == RecentTitle <==> mode == RecentXp
    ensures t == TopTitle <==> mode != RecentXp
  {
    var n := |TitleEmoji + " My Code::Stats XP ("|;
    assert TopTitle[n] == 'T' && RecentTitle[n] == 'R';
    match mode
    case RecentXp => RecentTitle
    case LevelXp => TopTitle
    case Xp => TopTitle
  }

  function XpKey(l: LanguageStats): int {
    l.xp
  }

  function NewXpKey(l: LanguageStats): int {
    l.newXp
  }

  /** The ranking key of a mode: recent xp in the recent mode, total xp otherwise. */
  function SortKey(mode: StatsType): LanguageStats -> int {
    if mode == RecentXp then NewXpKey else XpKey
  }

  predicate IsActive(l: LanguageStats) {
    l.newXp > 0
  }

  /** The languages a mode may show: those with recent xp in the recent mode, all otherwise. */
  function Eligible(langs: seq<LanguageStats>, mode: StatsType): (e: seq<LanguageStats>)
    ensures IsSubseq(e, langs)
    ensures mode != RecentXp ==> e == langs
    ensures mode == RecentXp ==> forall i :: 0 <= i < |e| ==> e[i].newXp > 0
    ensures mode == RecentXp ==> forall x :: multiset(e)[x] == if x.newXp > 0 then multiset(langs)[x] else 0
  {
    if mode == RecentXp then Filter(IsActive, langs)
    else
      IsSubseqRefl(langs);
      langs
  }

  /** The value text of a line, the same rule for the total and for a language:
      xp only, level and xp, or level, xp and recent xp. Each reads back as
      exactly the numbers of its mode. */
  function RenderValue(mode: StatsType, xp: int, level: int, newXp: int): (v: string)
    ensures mode == Xp ==> v == FormatXpOnly(xp)
    ensures mode == LevelXp ==> v == XpBase(xp, level)
    ensures mode == RecentXp ==> v == FormatXpValue(xp, level, Some(newXp))
    ensures mode == Xp ==> ParseXpOnly(v) == Some(xp)
    ensures mode == LevelXp ==> ParseXpValue(v) == Some(XpFields(level, xp, 0))
    ensures mode == RecentXp ==>
      ParseXpValue(v) == Some(XpFields(level, xp, RecentShown(Some(newXp))))
    ensures NoNewline(v)
  {
    match mode
    case Xp =>
      XpOnlyRoundTrip(xp);
      XpOnlyNoNewline(xp);
      FormatXpOnly(xp)
    case RecentXp =>
      XpValueRoundTrip(xp, level, Some(newXp));
      XpValueNoNewline(xp, level, Some(newXp));
      FormatXpValue(xp, level, Some(newXp))
    case LevelXp =>
      XpValueRoundTrip(xp, level, None);
      XpValueNoNewline(xp, level, None);
      FormatXpValue(xp, level, None)
  }

  /** `_format_total_line`: "Total XP" with the user's totals. */
  function TotalLine(stats: UserStats, mode: StatsType): (l: FormattedLine)
    ensures l.title == TotalTitle
    ensures l.value == RenderValue(mode, stats.totalXp, stats.level, stats.newXp)
    ensures NoNewline(l.value)
  {
    FormattedLine(TotalTitle, RenderValue(mode, stats.totalXp, stats.level, stats.newXp))
  }

  /** `_format_language_line`: the language name with its own numbers. */
  function LanguageLine(lang: LanguageStats, mode: StatsType): (l: FormattedLine)
    ensures l.title == lang.name
    ensures l.value == RenderValue(mode, lang.xp, lang.level, lang.newXp)
    ensures NoNewline(l.value)
  {
    FormattedLine(lang.name, RenderValue(mode, lang.xp, lang.level, lang.newXp))
  }

  /** The eligible languages are drawn from the user's languages. */
  lemma EligibleSub(langs: seq<LanguageStats>, mode: StatsType)
    ensures multiset(Eligible(langs, mode)) <= multiset(langs)
  {
    if mode == RecentXp {
      var e := Filter(IsActive, langs);
      forall x ensures multiset(e)[x] <= multiset(langs)[x] {
        assert multiset(e)[x] == if IsActive(x) then multiset(langs)[x] else 0;
      }
    }
  }

  lemma MultisetSubTrans<T>(a: multiset<T>, b: multiset<T>, c: multiset<T>)
    requires a <= b && b <= c
    ensures a <= c
  {
  }

  /** Every language drawn from a sequence of active languages is active. */
  lemma AllActive(s: seq<LanguageStats>, t: seq<LanguageStats>)
    requires forall i :: 0 <= i < |s| ==> IsActive(s[i])
    requires multiset(t) <= multiset(s)
    ensures forall i :: 0 <= i < |t| ==> t[i].newXp > 0
  {
    forall i | 0 <= i < |t| ensures t[i].newXp > 0 {
      assert t[i] in multiset(s);
    }
  }

  /** The languages shown for a mode: the eligible ones, stably sorted by the
      mode's key from highest to lowest, cut to `top`. */
  function Selected(langs: seq<LanguageStats>, mode: StatsType, top: nat): (sel: seq<LanguageStats>)
    ensures |sel| == if top < |Eligible(langs, mode)| then top else |Eligible(langs, mode)|
    ensures multiset(sel) <= multiset(langs)
    ensures mode == RecentXp ==> forall i :: 0 <= i < |sel| ==> sel[i].newXp > 0
    ensures SortedDesc(SortKey(mode), sel)
  {
    var e := Eligible(langs, mode);
    var sorted := SortDesc(SortKey(mode), e);
    var sel := Take(sorted, top);
    TakeSorted(SortKey(mode), sorted, top);
    assert multiset(sel) <= multiset(e);
    EligibleSub(langs, mode);
    MultisetSubTrans(multiset(sel), multiset(e), multiset(langs));
    assert mode == RecentXp ==> forall i :: 0 <= i < |sel| ==> sel[i].newXp > 0 by {
      if mode == RecentXp {
        AllActive(e, sel);
      }
    }
    sel
  }

  /** `_format_language_lines`: one line per selected language, or the
      placeholder block when the recent mode selects nothing. */
  function LanguageLines(langs: seq<LanguageStats>, mode: StatsType, top: nat): (lines: seq<FormattedLine>)
    ensures mode == RecentXp && Selected(langs, mode, top) == [] ==> lines == NoRecentActivity
    ensures !(mode == RecentXp && Selected(langs, mode, top) == []) ==>
      |lines| == |Selected(langs, mode, top)| &&
      forall i :: 0 <= i < |lines| ==> lines[i] == LanguageLine(Selected(langs, mode, top)[i], mode)
  {
    var sel := Selected(langs, mode, top);
    if mode == RecentXp && sel == [] then NoRecentActivity
    else seq(|sel|, i requires 0 <= i < |sel| => LanguageLine(sel[i], mode))
  }

  /** `_get_formatted_lines`: the total line, then the language lines. */
  function FormattedLines(stats: UserStats, mode: StatsType, top: nat): (lines: seq<FormattedLine>)
    ensures |lines| >= 1 && lines[0] == TotalLine(stats, mode)
    ensures lines[0].title == TotalTitle
    ensures lines[1..] == LanguageLines(stats.languages, mode, top)
  {
    [TotalLine(stats, mode)] + LanguageLines(stats.languages, mode, top)
  }

  /** The rendered lines, each padded to `width` with ':'. */
  function RenderLines(lines: seq<FormattedLine>, width: int): (rows: seq<string>)
    ensures |rows| == |lines|
    ensures forall i :: 0 <= i < |lines| ==> rows[i] == FormatLine(lines[i], Separator, width)
  {
    seq(|lines|, i requires 0 <= i < |lines| => FormatLine(lines[i], Separator, width))
  }

  /** `format_content`: the rendered lines joined by newlines. */
  function FormatContent(stats: UserStats, mode: StatsType, top: nat, width: int): (content: string)
    ensures TotalTitle <= content
    ensures |content| >= width
  {
    var lines := FormattedLines(stats, mode, top);
    var rows := RenderLines(lines, width);
    JoinedTotalFirst(rows, lines[0], width);
    Join(rows)
  }

  /** Joined rows whose first row lays out a "Total XP" line begin with that
      title and are at least as long as the width. */
  lemma JoinedTotalFirst(rows: seq<string>, first: FormattedLine, width: int)
    requires |rows| >= 1 && first.title == TotalTitle
    requires rows[0] == FormatLine(first, Separator, width)
    ensures TotalTitle <= Join(rows)
    ensures |Join(rows)| >= width
  {
    assert rows[0][..|TotalTitle|] == TotalTitle;
  }

  /** Whether some language has recent xp. */
  predicate AnyActive(langs: seq<LanguageStats>) {
    exists i :: 0 <= i < |langs| && langs[i].newXp > 0
  }

  lemma FilterEmpty(langs: seq<LanguageStats>)
    ensures Filter(IsActive, langs) == [] <==> !AnyActive(langs)
  {
    var f := Filter(IsActive, langs);
    if f != [] {
      assert multiset(f)[f[0]] > 0;
      assert f[0] in multiset(langs);
      var i :| 0 <= i < |langs| && langs[i] == f[0];
      assert IsActive(langs[i]);
    }
    if AnyActive(langs) {
      var i :| 0 <= i < |langs| && langs[i].newXp > 0;
      assert IsActive(langs[i]);
      assert multiset(f)[langs[i]] == multiset(langs)[langs[i]] > 0;
    }
  }

  /** In the recent mode (with `top >= 1`, as the settings guarantee) the
      placeholder block is shown exactly when no language has recent xp. */
  lemma PlaceholderIffNoRecentActivity(langs: seq<LanguageStats>, top: nat)
    requires top >= 1
    ensures LanguageLines(langs, RecentXp, top) == NoRecentActivity <==> !AnyActive(langs)
  {
    FilterEmpty(langs);
    var sel := Selected(langs, RecentXp, top);
    if AnyActive(langs) {
      assert sel != [];
      var line := LanguageLines(langs, RecentXp, top)[0];
      assert line == LanguageLine(sel[0], RecentXp);
      var v := FormatXpValue(sel[0].xp, sel[0].level, Some(sel[0].newXp));
      assert line.value == v;
      assert XpBase(sel[0].xp, sel[0].level)[0] == 'l';
      assert v[0] == 'l';
      assert NoRecentActivity[0].value[0] != 'l';
    }
  }

  /** Selection is a prefix of the stable descending sort: given any stable
      descending arrangement `r` of the eligible languages, the shown languages
      are its first `top`. */
  lemma SelectedIsStableSortPrefix(langs: seq<LanguageStats>, mode: StatsType, top: nat, r: seq<LanguageStats>)
    requires SortedDesc(SortKey(mode), r) && Stable(SortKey(mode), Eligible(langs, mode), r)
    ensures Selected(langs, mode, top) == Take(r, top)
  {
    SortDescIsTheStableSort(SortKey(mode), Eligible(langs, mode), r);
  }

  /** Ties keep payload order: for every key value, the shown languages with that
      key are the first ones with that key in payload order. */
  lemma SelectedKeepsPayloadOrder(langs: seq<LanguageStats>, mode: StatsType, top: nat, k: int)
    ensures WithKey(SortKey(mode), k, Selected(langs, mode, top)) <= WithKey(SortKey(mode), k, langs)
  {
    var key := SortKey(mode);
    var e := Eligible(langs, mode);
    var sorted := SortDesc(key, e);
    SortDescStable(key, e);
    WithKeyTake(key, k, sorted, top);
    assert WithKey(key, k, sorted) == WithKey(key, k, e);
    if mode == RecentXp {
      if k > 0 {
        WithKeyFilter(key, IsActive, langs, k);
      } else {
        WithKeyAbsent(key, k, e);
      }
    }
  }

  /** Top-N: no eligible language left out ranks above a shown one. */
  lemma SelectedAreTop(langs: seq<LanguageStats>, mode: StatsType, top: nat)
    ensures forall x, y ::
      (x in multiset(Eligible(langs, mode)) - multiset(Selected(langs, mode, top)) && y in Selected(langs, mode, top))
      ==> SortKey(mode)(x) <= SortKey(mode)(y)
  {
    TakeKeepsTop(SortKey(mode), SortDesc(SortKey(mode), Eligible(langs, mode)), top);
  }

  /** With languages of 500, 1500 and 1000 xp and a limit of two, the level/xp
      mode shows the 1500 and then the 1000 xp language. */
  lemma TopTwoExample()
    ensures var a := LanguageStats("A", 500, 0, 0);
            var b := LanguageStats("B", 1500, 0, 0);
            var c := LanguageStats("C", 1000, 0, 0);
            Selected([a, b, c], LevelXp, 2) == [b, c]
  {
    var a := LanguageStats("A", 500, 0, 0);
    var b := LanguageStats("B", 1500, 0, 0);
    var c := LanguageStats("C", 1000, 0, 0);
    var r := [b, c, a];
    assert SortedDesc(XpKey, r);
    forall k ensures WithKey(XpKey, k, r) == WithKey(XpKey, k, [a, b, c]) {
      WithKeyCons(XpKey, k, a, [b, c]);
      WithKeyCons(XpKey, k, b, [c]);
      WithKeyCons(XpKey, k, c, []);
      WithKeyCons(XpKey, k, b, [c, a]);
      WithKeyCons(XpKey, k, c, [a]);
      WithKeyCons(XpKey, k, a, []);
    }
    SelectedIsStableSortPrefix([a, b, c], LevelXp, 2, r);
    assert Take(r, 2) == [b, c];
  }

  /** The gist text has one line per formatted line (the total line first),
      each padded with ':' to the configured width, provided no language name
      contains a newline. */
  lemma ContentLines(stats: UserStats, mode: StatsType, top: nat, width: int)
    requires forall i :: 0 <= i < |stats.languages| ==> NoNewline(stats.languages[i].name)
    ensures Split(FormatContent(stats, mode, top, width)) == RenderLines(FormattedLines(stats, mode, top), width)
    ensures |Split(FormatContent(stats, mode, top, width))| == 1 + |LanguageLines(stats.languages, mode, top)|
  {
    var lines := FormattedLines(stats, mode, top);
    var rows := RenderLines(lines, width);
    LinesSingle(stats, mode, top);
    forall i | 0 <= i < |rows| ensures NoNewline(rows[i]) {
      assert SingleLine(lines[i]);
      FormatLineNoNewline(lines[i], Separator, width);
    }
    SplitJoin(rows);
  }

  /** Neither the title nor the value of the line contains a newline. */
  predicate SingleLine(l: FormattedLine) {
    NoNewline(l.title) && NoNewline(l.value)
  }

  lemma LinesSingle(stats: UserStats, mode: StatsType, top: nat)
    requires forall j :: 0 <= j < |stats.languages| ==> NoNewline(stats.languages[j].name)
    ensures forall i :: 0 <= i < |FormattedLines(stats, mode, top)| ==> SingleLine(FormattedLines(stats, mode, top)[i])
  {
    var t := TotalLine(stats, mode);
    var ll := LanguageLines(stats.languages, mode, top);
    TotalLineSingle(stats, mode);
    LanguageLinesSingle(stats.languages, mode, top);
    assert FormattedLines(stats, mode, top) == [t] + ll;
    ConsSingle(t, ll);
  }

  lemma ConsSingle(t: FormattedLine, ll: seq<FormattedLine>)
    requires SingleLine(t)
    requires forall i :: 0 <= i < |ll| ==> SingleLine(ll[i])
    ensures forall i :: 0 <= i < |[t] + ll| ==> SingleLine(([t] + ll)[i])
  {
    forall i | 0 <= i < |[t] + ll| ensures SingleLine(([t] + ll)[i]) {
      if i > 0 {
        assert ([t] + ll)[i] == ll[i - 1];
      }
    }
  }

  lemma TotalLineSingle(stats: UserStats, mode: StatsType)
    ensures SingleLine(TotalLine(stats, mode))
  {
    assert NoNewline(TotalTitle);
  }

  lemma LanguageLinesSingle(langs: seq<LanguageStats>, mode: StatsType, top: nat)
    requires forall j :: 0 <= j < |langs| ==> NoNewline(langs[j].name)
    ensures forall i :: 0 <= i < |LanguageLines(langs, mode, top)| ==> SingleLine(LanguageLines(langs, mode, top)[i])
  {
    forall i | 0 <= i < |LanguageLines(langs, mode, top)| ensures SingleLine(LanguageLines(langs, mode, top)[i]) {
      if mode == RecentXp && Selected(langs, mode, top) == [] {
        PlaceholderSingle(i);
      } else {
        DrawnNameSingle(langs, Selected(langs, mode, top), i);
      }
    }
  }

  /** The placeholder block: four lines, each a non-empty single-line message
      with a single emoji as its value. */
  lemma PlaceholderShape()
    ensures |NoRecentActivity| == 4
    ensures forall i :: 0 <= i < |NoRecentActivity| ==>
      |NoRecentActivity[i].title| > 0 && |NoRecentActivity[i].value| == 1 && SingleLine(NoRecentActivity[i])
  {
    forall i | 0 <= i < |NoRecentActivity|
      ensures |NoRecentActivity[i].title| > 0 && |NoRecentActivity[i].value| == 1 && SingleLine(NoRecentActivity[i])
    {
      PlaceholderSingle(i);
    }
  }

  lemma PlaceholderSingle(i: nat)
    requires i < |NoRecentActivity|
    ensures SingleLine(NoRecentActivity[i])
  {
  }

  /** A language drawn from languages with single-line names has a single-line name. */
  lemma DrawnNameSingle(langs: seq<LanguageStats>, sel: seq<LanguageStats>, i: nat)
    requires forall j :: 0 <= j < |langs| ==> NoNewline(langs[j].name)
    requires multiset(sel) <= multiset(langs)
    requires i < |sel|
    ensures NoNewline(sel[i].name)
  {
    assert sel[i] in multiset(langs);
    var j :| 0 <= j < |langs| && langs[j] == sel[i];
  }

  /** The number of lines: the total line plus either the four placeholder
      lines (recent mode, nothing recent) or one per shown language, which is
      `top` or all eligible languages when there are fewer. */
  lemma LineCount(stats: UserStats, mode: StatsType, top: nat)
    requires top >= 1
    ensures mode == RecentXp && !AnyActive(stats.languages) ==> |FormattedLines(stats, mode, top)| == 5
    ensures !(mode == RecentXp && !AnyActive(stats.languages)) ==>
      |FormattedLines(stats, mode, top)| == 1 +
        (if top < |Eligible(stats.languages, mode)| then top else |Eligible(stats.languages, mode)|)
  {
    var lines := FormattedLines(stats, mode, top);
    var ll := LanguageLines(stats.languages, mode, top);
    var sel := Selected(stats.languages, mode, top);
    assert |lines| == 1 + |ll| by {
      assert |lines| == 1 + |lines[1..]|;
    }
    if mode == RecentXp {
      FilterEmpty(stats.languages);
      if !AnyActive(stats.languages) {
        assert sel == [];
      } else {
        assert sel != [];
      }
    }
  }
}
