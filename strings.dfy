/** The few JavaScript string operations the core relies on, over `seq<char>`. */
module Strings {

  /** `parts.join(c)`. */
  function Join(parts: seq<string>, c: char): string {
    if parts == [] then ""
    else if |parts| == 1 then parts[0]
    else parts[0] + [c] + Join(parts[1..], c)
  }

  /** `s.split(c)` for a one-character separator: at least one piece, and no piece holds `c`;
      `SplitJoin` shows that joining the pieces with `c` gives back `s`. */
  function Split(s: string, c: char): (parts: seq<string>)
    ensures |parts| >= 1
    ensures forall i :: 0 <= i < |parts| ==> c !in parts[i]
    ensures c !in s ==> parts == [s]
  {
    if s == [] then [""]
    else
      var rest := Split(s[1..], c);
      if s[0] == c then
        [""] + rest
      else
        var parts := [[s[0]] + rest[0]] + rest[1..];
        assert parts[1..] == rest[1..];
        assert [s[0]] + s[1..] == s;
        parts
  }

  /** Joining the pieces of a split with the separator gives back the text. */
  lemma {:induction false} SplitJoin(s: string, c: char)
    ensures Join(Split(s, c), c) == s
  {
    if s != [] {
      var rest := Split(s[1..], c);
      SplitJoin(s[1..], c);
      if s[0] == c {
        assert Split(s, c) == [""] + rest;
        assert ([""] + rest)[1..] == rest;
      } else {
        var parts := [[s[0]] + rest[0]] + rest[1..];
        assert parts[1..] == rest[1..];
        if |rest| > 1 {
          assert Join(rest, c) == rest[0] + [c] + Join(rest[1..], c);
        }
      }
    }
  }

  /** A split into one piece leaves the text whole. */
  lemma SplitSingle(s: string, c: char)
    requires |Split(s, c)| == 1
    ensures Split(s, c) == [s]
  {
    SplitJoin(s, c);
  }

  /** The first piece of a split is a prefix of the text, and it is either the whole text or
      followed by `c`. */
  lemma {:induction false} SplitFirstIsPrefix(s: string, c: char)
    ensures Split(s, c)[0] <= s
    ensures var first := Split(s, c)[0];
      first == s || (|first| < |s| && s[|first|] == c)
  {
    if s != [] && s[0] != c {
      SplitFirstIsPrefix(s[1..], c);
      assert [s[0]] + s[1..] == s;
    }
  }

  /** The last piece of a split is a suffix of the text, and it is either the whole text or
      preceded by `c`. */
  lemma {:induction false} SplitLastIsSuffix(s: string, c: char)
    ensures var last := Split(s, c)[|Split(s, c)| - 1];
      |last| <= |s| && s[|s| - |last|..] == last
    ensures var last := Split(s, c)[|Split(s, c)| - 1];
      |last| == |s| || s[|s| - |last| - 1] == c
  {
    if s != [] {
      var rest := Split(s[1..], c);
      var parts := Split(s, c);
      var last := rest[|rest| - 1];
      if s[0] == c || |rest| > 1 {
        if s[0] == c {
          assert parts == [""] + rest;
        } else {
          assert parts == [[s[0]] + rest[0]] + rest[1..];
        }
        assert parts[|parts| - 1] == last;
        SplitLastIsSuffix(s[1..], c);
        assert s[|s| - |last|..] == s[1..][|s| - 1 - |last|..];
        if |last| < |s| - 1 {
          assert s[|s| - |last| - 1] == s[1..][|s| - 1 - |last| - 1];
        }
      } else {
        SplitJoin(s[1..], c);
        assert parts == [[s[0]] + rest[0]];
        assert rest[0] == s[1..];
        assert [s[0]] + s[1..] == s;
      }
    }
  }

  /** `s.split(c).pop()`: the text after the last `c`, or all of `s`. */
  function AfterLast(s: string, c: char): (r: string)
    ensures c !in r
    ensures c !in s ==> r == s
    ensures |r| <= |s| && s[|s| - |r|..] == r
    ensures |r| == |s| || s[|s| - |r| - 1] == c
  {
    var parts := Split(s, c);
    var last := parts[|parts| - 1];
    SplitLastIsSuffix(s, c);
    assert c !in last;
    last
  }

  /** `s.split(c)[0]`: the text before the first `c`, or all of `s`. */
  function BeforeFirst(s: string, c: char): (r: string)
    ensures c !in r
    ensures c !in s ==> r == s
    ensures r <= s
    ensures r == s || (|r| < |s| && s[|r|] == c)
  {
    SplitFirstIsPrefix(s, c);
    Split(s, c)[0]
  }

  /** `toLowerCase` on ASCII letters; every other character is kept. */
  function LowerChar(ch: char): char {
    if 'A' <= ch <= 'Z' then (ch as int + 32) as char else ch
  }

  function Lower(s: string): (r: string)
    ensures |r| == |s|
    ensures forall i :: 0 <= i < |s| ==> r[i] == LowerChar(s[i])
  {
    if s == [] then [] else [LowerChar(s[0])] + Lower(s[1..])
  }

  /** `s.includes(t)`. */
  predicate Contains(s: string, t: string) {
    t <= s || (s != [] && Contains(s[1..], t))
  }

  /** An occurrence of `t + u` is an occurrence of `t`. */
  lemma {:induction false} ContainsPrefix(s: string, t: string, u: string)
    requires Contains(s, t + u)
    ensures Contains(s, t)
  {
    if t + u <= s {
      assert t <= s by { assert s[..|t|] == (t + u)[..|t|]; }
    } else {
      ContainsPrefix(s[1..], t, u);
    }
  }

  /** A text that lacks one of the characters of `t` does not contain `t`. */
  lemma {:induction false} AbsentCharNotContained(s: string, t: string, k: nat)
    requires k < |t| && t[k] !in s
    ensures !Contains(s, t)
  {
    if s != [] {
      AbsentCharNotContained(s[1..], t, k);
    }
  }

  /** `s.replace(/pat/g, rep)`: every occurrence of `pat`, scanning left to right without overlap,
      replaced by `rep`. */
  function ReplaceAll(s: string, pat: string, rep: string): (r: string)
    requires pat != []
    decreases |s|
  {
    if |s| < |pat| then s
    else if pat <= s then rep + ReplaceAll(s[|pat|..], pat, rep)
    else [s[0]] + ReplaceAll(s[1..], pat, rep)
  }

  /** A text without `pat` is left as it is. */
  lemma {:induction false} ReplaceAllAbsent(s: string, pat: string, rep: string)
    requires pat != [] && !Contains(s, pat)
    ensures ReplaceAll(s, pat, rep) == s
    decreases |s|
  {
    if |s| >= |pat| {
      assert !(pat <= s);
      ReplaceAllAbsent(s[1..], pat, rep);
      assert [s[0]] + s[1..] == s;
    }
  }

  /** An occurrence of `t` at any position of `s` makes `s` contain `t`. */
  lemma {:induction false} ContainsAt(s: string, t: string, i: nat)
    requires i <= |s| && t <= s[i..]
    ensures Contains(s, t)
  {
    if i > 0 {
      assert s[1..][i - 1..] == s[i..];
      ContainsAt(s[1..], t, i - 1);
    }
  }

  /** No occurrence of `pat` starts in the first `k` positions of `s`. */
  ghost predicate NoMatchBefore(s: string, pat: string, k: nat) {
    forall i :: 0 <= i < k && i <= |s| ==> !(pat <= s[i..])
  }

  lemma NoMatchShift(s: string, pat: string, k: nat)
    requires s != [] && k > 0 && NoMatchBefore(s, pat, k)
    ensures NoMatchBefore(s[1..], pat, k - 1)
  {
    forall i | 0 <= i < k - 1 && i <= |s[1..]| ensures !(pat <= s[1..][i..]) {
      assert s[1..][i..] == s[i + 1..];
    }
  }

  /** The first `k` characters, where no occurrence of `pat` starts, are copied as they are. */
  lemma {:induction false} ReplaceAllSkips(s: string, k: nat, pat: string, rep: string)
    requires pat != [] && k <= |s| && NoMatchBefore(s, pat, k)
    ensures ReplaceAll(s, pat, rep) == s[..k] + ReplaceAll(s[k..], pat, rep)
    decreases k
  {
    if k == 0 {
      assert s[..0] == [] && s[0..] == s;
    } else if |s| < |pat| {
      assert s[..k] + s[k..] == s;
    } else {
      assert s[0..] == s;
      NoMatchShift(s, pat, k);
      ReplaceAllSkips(s[1..], k - 1, pat, rep);
      assert s[1..][k - 1..] == s[k..];
      assert [s[0]] + s[1..][..k - 1] == s[..k];
    }
  }

  /** An occurrence of `pat` starting at `i` and ending inside `lead`, a prefix of `s`, is one in `lead`. */
  lemma MatchInPrefix(s: string, lead: string, pat: string, i: nat)
    requires lead <= s && i + |pat| <= |lead| && pat <= s[i..]
    ensures Contains(lead, pat)
  {
    assert s[i..][..|pat|] == lead[i..][..|pat|];
    ContainsAt(lead, pat, i);
  }

  /** No occurrence of `pat` starts inside `before` when none lies in `before` plus all but the last character of `pat`. */
  lemma NoMatchInLead(before: string, pat: string, after: string)
    requires pat != [] && !Contains(before + pat[..|pat| - 1], pat)
    ensures NoMatchBefore(before + pat + after, pat, |before|)
  {
    var s := before + pat + after;
    var lead := before + pat[..|pat| - 1];
    assert lead <= s by { assert s[..|lead|] == lead; }
    forall i | 0 <= i < |before| && i <= |s| ensures !(pat <= s[i..]) {
      if pat <= s[i..] {
        MatchInPrefix(s, lead, pat, i);
      }
    }
  }

  /** An occurrence of `pat` that begins no earlier occurrence of `pat`, in front of text that
      holds none, is the one occurrence replaced. */
  lemma ReplaceAllOnce(before: string, pat: string, after: string, rep: string)
    requires pat != [] && !Contains(before + pat[..|pat| - 1], pat) && !Contains(after, pat)
    ensures ReplaceAll(before + pat + after, pat, rep) == before + rep + after
  {
    var s := before + pat + after;
    NoMatchInLead(before, pat, after);
    ReplaceAllSkips(s, |before|, pat, rep);
    assert s[..|before|] == before && s[|before|..] == pat + after;
    ReplaceAllAtMatch(pat, after, rep);
    ReplaceAllAbsent(after, pat, rep);
  }

  /** A text that starts with `pat` has that occurrence replaced first. */
  lemma ReplaceAllAtMatch(pat: string, after: string, rep: string)
    requires pat != []
    ensures ReplaceAll(pat + after, pat, rep) == rep + ReplaceAll(after, pat, rep)
  {
    assert pat <= pat + after;
    assert (pat + after)[|pat|..] == after;
  }
}
