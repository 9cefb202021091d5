/** The value objects of `models.py`: per-language and per-user statistics
    built from a Code::Stats payload, and the fixed-width "title ::: value" line. */
module Models {
  import opened Wrappers
  import opened Levels
  import opened Text

  /** Statistics for one programming language. */
  datatype LanguageStats = LanguageStats(name: string, xp: int, newXp: int, level: int)

  /** All statistics of one Code::Stats user; `languages` keeps payload order. */
  datatype UserStats = UserStats(
    username: string,
    totalXp: int,
    newXp: int,
    level: int,
    languages: seq<LanguageStats>)

  /** One (title, value) line of the gist. */
  datatype FormattedLine = FormattedLine(title: string, value: string)

  /** One entry of the payload's `languages` mapping, in iteration order; the
      `xps` and `new_xps` fields may be missing. */
  datatype LanguageEntry = LanguageEntry(name: string, xps: Option<int>, newXps: Option<int>)

  /** The decoded API payload; every field may be missing. */
  datatype Payload = Payload(
    totalXp: Option<int>,
    newXp: Option<int>,
    languages: Option<seq<LanguageEntry>>)

  /** A language's level is the one its xp determines. */
  predicate LevelDerived(l: LanguageStats) {
    l.level == Level(l.xp)
  }

  /** Every level in the statistics is derived from the matching xp. */
  predicate WellFormed(u: UserStats) {
    && u.level == Level(u.totalXp)
    && forall i :: 0 <= i < |u.languages| ==> LevelDerived(u.languages[i])
  }

  /** `LanguageStats.from_api_response`: missing counts default to 0 and the
      level is computed from xp. */
  function LanguageFromEntry(e: LanguageEntry): (l: LanguageStats)
    ensures l.name == e.name
    ensures e.xps.None? ==> l.xp == 0
    ensures e.xps.Some? ==> l.xp == e.xps.value
    ensures e.newXps.None? ==> l.newXp == 0
    ensures e.newXps.Some? ==> l.newXp == e.newXps.value
    ensures LevelDerived(l)
  {
    var xp := e.xps.GetOr(0);
    LanguageStats(e.name, xp, e.newXps.GetOr(0), Level(xp))
  }

  /** The payload's language entries; a missing mapping reads as an empty one. */
  function Entries(p: Payload): seq<LanguageEntry> {
    p.languages.GetOr([])
  }

  /** `UserStats.from_api_response`: missing totals default to 0, the level is
      computed from the total, and there is one language per payload entry, in
      payload order. */
  function UserFromPayload(username: string, p: Payload): (u: UserStats)
    ensures u.username == username
    ensures p.totalXp.None? ==> u.totalXp == 0
    ensures p.totalXp.Some? ==> u.totalXp == p.totalXp.value
    ensures p.newXp.None? ==> u.newXp == 0
    ensures p.newXp.Some? ==> u.newXp == p.newXp.value
    ensures WellFormed(u)
    ensures |u.languages| == |Entries(p)|
    ensures forall i :: 0 <= i < |u.languages| ==> u.languages[i] == LanguageFromEntry(Entries(p)[i])
    ensures (p.languages.None? || p.languages == Some([])) ==> u.languages == []
  {
    var total := p.totalXp.GetOr(0);
    var entries := Entries(p);
    UserStats(username, total, p.newXp.GetOr(0), Level(total),
              seq(|entries|, i requires 0 <= i < |entries| => LanguageFromEntry(entries[i])))
  }

  /** `FormattedLine.format`: title, a space, a run of `sep` characters, a space,
      value. The run pads the line to `width` but is never shorter than one
      character, so an overlong line grows rather than being cut. */
  function FormatLine(line: FormattedLine, sep: char, width: int): (r: string)
    ensures |r| == Max(width, |line.title| + |line.value| + 3)
    ensures |r| - |line.title| - |line.value| - 2 == Max(width - |line.title| - |line.value| - 2, 1)
    ensures r[..|line.title|] == line.title
    ensures r[|r| - |line.value|..] == line.value
    ensures r[|line.title|] == ' ' && r[|r| - |line.value| - 1] == ' '
    ensures forall i :: |line.title| < i < |r| - |line.value| - 1 ==> r[i] == sep
  {
    var available := width - |line.title| - |line.value| - 2;
    var n := if available > 1 then available else 1;
    var run := seq(n, _ => sep);
    var r := line.title + [' '] + run + [' '] + line.value;
    assert r[..|line.title|] == line.title;
    assert r[|r| - |line.value|..] == line.value;
    assert forall i :: |line.title| < i < |r| - |line.value| - 1 ==> r[i] == run[i - |line.title| - 1];
    r
  }

  /** A line built from single-line parts is a single line. */
  lemma FormatLineNoNewline(line: FormattedLine, sep: char, width: int)
    requires NoNewline(line.title) && NoNewline(line.value) && sep != '\n'
    ensures NoNewline(FormatLine(line, sep, width))
  {
    var r := FormatLine(line, sep, width);
    var t, v := line.title, line.value;
    forall i | 0 <= i < |r| ensures r[i] != '\n' {
      if i < |t| {
        assert r[i] == r[..|t|][i];
      } else if i >= |r| - |v| {
        assert r[i] == r[|r| - |v|..][i - (|r| - |v|)];
      }
    }
  }
}
