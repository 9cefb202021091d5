/** Text helpers: right-justification as Python's `f"{s:>w}"` does it,
    stripping leading spaces, and joining/splitting lines on '\n'. */
module Text {

  /** `k` space characters. */
  function Spaces(k: nat): (s: seq<char>)
    ensures |s| == k
    ensures forall i :: 0 <= i < k ==> s[i] == ' '
  {
    seq(k, _ => ' ')
  }

  function Max(a: int, b: int): int {
    if a >= b then a else b
  }

  /** The number of spaces that right-align `s` in a field of width `w`. */
  function PadCount(s: seq<char>, w: int): nat {
    if w > |s| then w - |s| else 0
  }

  /** `s` right-aligned in a field of width `w`: padded on the left with spaces,
      never truncated when it is wider than the field. */
  function RightJustify(s: seq<char>, w: int): (r: seq<char>)
    ensures |r| == Max(w, |s|)
    ensures r[|r| - |s|..] == s
    ensures forall i :: 0 <= i < |r| - |s| ==> r[i] == ' '
  {
    Spaces(PadCount(s, w)) + s
  }

  /** `s` without its leading spaces. */
  function LStrip(s: seq<char>): (r: seq<char>)
    ensures |r| <= |s| && r == s[|s| - |r|..]
    ensures r == [] || r[0] != ' '
    ensures forall i :: 0 <= i < |s| - |r| ==> s[i] == ' '
  {
    if s != [] && s[0] == ' ' then LStrip(s[1..]) else s
  }

  /** Stripping the padding of a right-justified text that does not itself begin
      with a space gives the text back: justification loses nothing. */
  lemma {:induction false} LStripSpaces(k: nat, t: seq<char>)
    requires t == [] || t[0] != ' '
    ensures LStrip(Spaces(k) + t) == t
    decreases k
  {
    if k == 0 {
      assert Spaces(k) + t == t;
    } else {
      assert (Spaces(k) + t)[1..] == Spaces(k - 1) + t;
      LStripSpaces(k - 1, t);
    }
  }

  /** Right-justification can be undone by stripping the leading spaces. */
  lemma LStripJustified(s: seq<char>, w: int)
    requires s == [] || s[0] != ' '
    ensures LStrip(RightJustify(s, w)) == s
  {
    LStripSpaces(PadCount(s, w), s);
  }

  predicate NoNewline(s: seq<char>) {
    forall i :: 0 <= i < |s| ==> s[i] != '\n'
  }

  lemma NoNewlineAppend(a: seq<char>, b: seq<char>)
    requires NoNewline(a) && NoNewline(b)
    ensures NoNewline(a + b)
  {
    forall i | 0 <= i < |a + b| ensures (a + b)[i] != '\n' {
      if i >= |a| {
        assert (a + b)[i] == b[i - |a|];
      }
    }
  }

  /** `"\n".join(lines)`: the text starts with the first line; `SplitJoin`
      shows that it holds exactly the lines. */
  function Join(lines: seq<seq<char>>): (r: seq<char>)
    ensures lines == [] ==> r == []
    ensures |lines| >= 1 ==> lines[0] <= r
    decreases |lines|
  {
    if lines == [] then []
    else if |lines| == 1 then lines[0]
    else
      assert lines[0] + ['\n'] + Join(lines[1..]) == lines[0] + (['\n'] + Join(lines[1..]));
      lines[0] + ['\n'] + Join(lines[1..])
  }

  /** `s.split("\n")`: the pieces between newline characters. */
  function Split(s: seq<char>): (pieces: seq<seq<char>>)
    ensures |pieces| >= 1
    decreases |s|
  {
    if s == [] then [[]]
    else
      var rest := Split(s[1..]);
      if s[0] == '\n' then [[]] + rest
      else [[s[0]] + rest[0]] + rest[1..]
  }

  lemma {:induction false} SplitNoNewline(a: seq<char>, tail: seq<seq<char>>, b: seq<char>)
    requires NoNewline(a)
    requires Split(b) == [[]] + tail
    ensures Split(a + b) == [a] + tail
    decreases |a|
  {
    if a == [] {
      assert a + b == b;
    } else {
      assert (a + b)[1..] == a[1..] + b;
      SplitNoNewline(a[1..], tail, b);
      assert [a[0]] + a[1..] == a;
    }
  }

  lemma {:induction false} SplitLine(a: seq<char>)
    requires NoNewline(a)
    ensures Split(a) == [a]
    decreases |a|
  {
    if a != [] {
      SplitLine(a[1..]);
      assert [a[0]] + a[1..] == a;
    }
  }

  /** Splitting joined lines gives the lines back when none contains a newline,
      so the joined text has exactly one line per element. */
  lemma {:induction false} SplitJoin(lines: seq<seq<char>>)
    requires |lines| >= 1
    requires forall k :: 0 <= k < |lines| ==> NoNewline(lines[k])
    ensures Split(Join(lines)) == lines
    decreases |lines|
  {
    if |lines| == 1 {
      SplitLine(lines[0]);
    } else {
      var rest := Join(lines[1..]);
      SplitJoin(lines[1..]);
      assert Split(['\n'] + rest) == [[]] + lines[1..];
      assert lines[0] + ['\n'] + rest == lines[0] + (['\n'] + rest);
      SplitNoNewline(lines[0], lines[1..], ['\n'] + rest);
      assert [lines[0]] + lines[1..] == lines;
    }
  }
}
