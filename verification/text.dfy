/** The slice of Python's `str` behaviour the pipeline relies on, restricted to
    ASCII: character classes, `lower`, `strip`, `replace(pat, "")`, `split()`
    with no argument, and `sep.join(...)`. */
module Text {

  /** `str.isspace` on ASCII: space, tab, LF, VT, FF, CR and the separators 0x1C-0x1F. */
  predicate IsSpace(c: char) {
    c == ' ' || ('\t' <= c <= '\r') || ('\U{1C}' <= c <= '\U{1F}')
  }

  predicate NotSpace(c: char) { !IsSpace(c) }

  predicate IsUpper(c: char) { 'A' <= c <= 'Z' }
  predicate IsLowerLetter(c: char) { 'a' <= c <= 'z' }
  predicate IsDigit(c: char) { '0' <= c <= '9' }

  /** `str.isalnum` on ASCII. */
  predicate IsAlnum(c: char) { IsUpper(c) || IsLowerLetter(c) || IsDigit(c) }

  /** Every character of `s` satisfies `p`. */
  predicate All(s: string, p: char -> bool) {
    forall i :: 0 <= i < |s| ==> p(s[i])
  }

  /** `str.lower` on one ASCII character. */
  function LowerChar(c: char): (r: char)
    ensures !IsUpper(r)
    ensures IsAlnum(c) <==> IsAlnum(r)
    ensures IsSpace(c) <==> IsSpace(r)
    ensures !IsUpper(c) ==> r == c
  {
    if IsUpper(c) then (c as int + 32) as char else c
  }

  /** `str.lower`: upper-case letters are mapped, everything else is kept in place. */
  function Lower(s: string): (r: string)
    ensures |r| == |s|
    ensures forall i :: 0 <= i < |s| ==> r[i] == LowerChar(s[i])
  {
    if |s| == 0 then "" else [LowerChar(s[0])] + Lower(s[1..])
  }

  /** Leading whitespace removed (the left half of `str.strip`). */
  function TrimStart(s: string): (r: string)
    ensures |r| <= |s| && r == s[|s| - |r|..]
    ensures forall i :: 0 <= i < |s| - |r| ==> IsSpace(s[i])
    ensures |r| > 0 ==> !IsSpace(r[0])
  {
    if |s| > 0 && IsSpace(s[0]) then TrimStart(s[1..]) else s
  }

  /** Trailing whitespace removed (the right half of `str.strip`). */
  function TrimEnd(s: string): (r: string)
    ensures |r| <= |s| && r == s[..|r|]
    ensures forall i :: |r| <= i < |s| ==> IsSpace(s[i])
    ensures |r| > 0 ==> !IsSpace(r[|r| - 1])
  {
    if |s| > 0 && IsSpace(s[|s| - 1]) then TrimEnd(s[..|s| - 1]) else s
  }

  /** `str.strip()` with no argument. */
  function Strip(s: string): (r: string)
    ensures |r| > 0 ==> !IsSpace(r[0]) && !IsSpace(r[|r| - 1])
    ensures forall c :: c in r ==> c in s
  {
    TrimEnd(TrimStart(s))
  }

  /** `s.replace(pat, "")`: occurrences of `pat` found left to right without overlap are deleted. */
  function RemoveAll(s: string, pat: string): (r: string)
    requires |pat| > 0
    ensures |r| <= |s|
    ensures forall c :: c in r ==> c in s
    decreases |s|
  {
    if |s| == 0 then ""
    else if pat <= s then RemoveAll(s[|pat|..], pat)
    else [s[0]] + RemoveAll(s[1..], pat)
  }

  /** The characters of `s` that satisfy `keep`, in order (`''.join(c for c in s if keep(c))`). */
  function Keep(s: string, keep: char -> bool): (r: string)
    ensures |r| <= |s|
    ensures All(r, keep)
    ensures forall c :: c in r ==> c in s
  {
    if |s| == 0 then ""
    else if keep(s[0]) then [s[0]] + Keep(s[1..], keep)
    else Keep(s[1..], keep)
  }

  /** The longest prefix of `s` that holds no whitespace. */
  function TakeWord(s: string): (w: string)
    ensures |w| <= |s| && w == s[..|w|]
    ensures |w| < |s| ==> IsSpace(s[|w|])
    ensures |s| > 0 && !IsSpace(s[0]) ==> |w| > 0
    ensures All(w, NotSpace)
  {
    if |s| == 0 || IsSpace(s[0]) then "" else [s[0]] + TakeWord(s[1..])
  }

  /** A word as `str.split()` produces it: non-empty and free of whitespace. */
  predicate IsWord(w: string) {
    |w| > 0 && All(w, NotSpace)
  }

  predicate AllWords(ws: seq<string>) {
    forall i :: 0 <= i < |ws| ==> IsWord(ws[i])
  }

  /** `s.split()` with no argument: the maximal whitespace-free runs of `s`, in order. */
  function Words(s: string): (ws: seq<string>)
    ensures AllWords(ws)
    ensures forall i, j :: 0 <= i < |ws| && 0 <= j < |ws[i]| ==> ws[i][j] in s
    decreases |s|
  {
    if |s| == 0 then []
    else if IsSpace(s[0]) then Words(s[1..])
    else
      var w := TakeWord(s);
      [w] + Words(s[|w|..])
  }

  /** `len(s.split())`. */
  function WordCount(s: string): nat {
    |Words(s)|
  }

  /** `sep.join(ws)`. */
  function Join(ws: seq<string>, sep: string): string {
    if |ws| == 0 then ""
    else if |ws| == 1 then ws[0]
    else ws[0] + sep + Join(ws[1..], sep)
  }

  /** `' '.join(s.split())`: runs of whitespace become one space, the ends are trimmed. */
  function Collapse(s: string): string {
    Join(Words(s), " ")
  }

  /** A string in the shape `Collapse` produces: no whitespace except single
      inner spaces, so no leading, trailing or doubled space. */
  predicate Collapsed(s: string) {
    && (|s| > 0 ==> s[0] != ' ' && s[|s| - 1] != ' ')
    && (forall i :: 0 <= i < |s| ==> s[i] == ' ' || !IsSpace(s[i]))
    && (forall i :: 0 <= i < |s| - 1 ==> s[i] != ' ' || s[i + 1] != ' ')
  }

  /** Splitting skips any whitespace in front of the first word. */
  lemma {:induction false} WordsSkipSpace(s: string, t: string)
    requires All(s, IsSpace)
    ensures Words(s + t) == Words(t)
    decreases |s|
  {
    if |s| > 0 {
      assert (s + t)[1..] == s[1..] + t;
      WordsSkipSpace(s[1..], t);
    } else {
      assert s + t == t;
    }
  }

  /** The first word of `w + rest` is `w` when `rest` starts with whitespace. */
  lemma {:induction false} TakeWordPrefix(w: string, rest: string)
    requires All(w, NotSpace)
    requires |rest| == 0 || IsSpace(rest[0])
    ensures TakeWord(w + rest) == w
    decreases |w|
  {
    if |w| == 0 {
      assert w + rest == rest;
    } else {
      assert (w + rest)[1..] == w[1..] + rest;
      TakeWordPrefix(w[1..], rest);
    }
  }

  /** A word followed by whitespace (or nothing) splits off as the first word. */
  lemma WordsCons(w: string, rest: string)
    requires IsWord(w)
    requires |rest| == 0 || IsSpace(rest[0])
    ensures Words(w + rest) == [w] + Words(rest)
  {
    var s := w + rest;
    assert s[0] == w[0];
    TakeWordPrefix(w, rest);
    assert s[|w|..] == rest;
  }

  /** Splitting a space-joined list of words gives the list back: `split` inverts `' '.join`. */
  lemma {:induction false} WordsOfJoin(ws: seq<string>)
    requires AllWords(ws)
    ensures Words(Join(ws, " ")) == ws
    decreases |ws|
  {
    if |ws| == 1 {
      assert IsWord(ws[0]);
      WordsCons(ws[0], "");
      assert ws[0] + "" == ws[0];
    } else if |ws| > 1 {
      var tail := Join(ws[1..], " ");
      assert IsWord(ws[0]);
      assert Join(ws, " ") == ws[0] + (" " + tail);
      WordsCons(ws[0], " " + tail);
      WordsSkipSpace(" ", tail);
      WordsOfJoin(ws[1..]);
      assert ws == [ws[0]] + ws[1..];
    }
  }

  /** Appending to a joined string extends its last element. */
  lemma {:induction false} JoinAppendLast(ws: seq<string>, sep: string, x: string)
    requires |ws| > 0
    ensures Join(ws, sep) + x == Join(ws[..|ws| - 1] + [ws[|ws| - 1] + x], sep)
    decreases |ws|
  {
    var ws' := ws[..|ws| - 1] + [ws[|ws| - 1] + x];
    if |ws| == 1 {
    } else {
      JoinAppendLast(ws[1..], sep, x);
      assert ws'[1..] == ws[1..][..|ws| - 2] + [ws[|ws| - 1] + x];
      assert ws'[0] == ws[0];
      assert Join(ws, sep) + x == ws[0] + sep + (Join(ws[1..], sep) + x);
    }
  }

  /** A non-empty space-joined list of words begins with its first word. */
  lemma {:induction false} JoinStartsWith(ws: seq<string>, sep: string)
    requires |ws| > 0
    ensures |Join(ws, sep)| >= |ws[0]| && Join(ws, sep)[..|ws[0]|] == ws[0]
  {
    if |ws| > 1 {
      assert Join(ws, sep) == ws[0] + (sep + Join(ws[1..], sep));
    }
  }

  /** Space-joining words yields a string in collapsed form. */
  lemma {:induction false} JoinIsCollapsed(ws: seq<string>)
    requires AllWords(ws)
    ensures Collapsed(Join(ws, " "))
    decreases |ws|
  {
    if |ws| == 1 {
      assert IsWord(ws[0]);
    } else if |ws| > 1 {
      var w, t := ws[0], Join(ws[1..], " ");
      assert IsWord(w);
      JoinIsCollapsed(ws[1..]);
      JoinStartsWith(ws[1..], " ");
      assert IsWord(ws[1..][0]);
      assert |t| > 0 && t[0] == ws[1][0] && !IsSpace(t[0]);
      var s := w + " " + t;
      assert s == Join(ws, " ");
      forall i | 0 <= i < |s|
        ensures s[i] == ' ' || !IsSpace(s[i])
      {
        if i < |w| { assert s[i] == w[i]; }
        else if i > |w| { assert s[i] == t[i - |w| - 1]; }
      }
      forall i | 0 <= i < |s| - 1
        ensures s[i] != ' ' || s[i + 1] != ' '
      {
        if i < |w| - 1 { assert s[i] == w[i]; }
        else if i == |w| - 1 { assert s[i] == w[i]; }
        else if i == |w| { assert s[i + 1] == t[0]; }
        else { assert s[i] == t[i - |w| - 1] && s[i + 1] == t[i - |w|]; }
      }
      assert s[|s| - 1] == t[|t| - 1];
    }
  }

  /** Every character of a joined string comes from one of the parts or the separator. */
  lemma {:induction false} JoinChars(ws: seq<string>, sep: string, p: char -> bool)
    requires forall i :: 0 <= i < |ws| ==> All(ws[i], p)
    requires All(sep, p)
    ensures All(Join(ws, sep), p)
    decreases |ws|
  {
    if |ws| > 1 {
      JoinChars(ws[1..], sep, p);
      var t := Join(ws[1..], sep);
      var s := ws[0] + sep + t;
      assert All(ws[0], p);
      forall i | 0 <= i < |s| ensures p(s[i]) {
        if i < |ws[0]| { assert s[i] == ws[0][i]; }
        else if i < |ws[0]| + |sep| { assert s[i] == sep[i - |ws[0]|]; }
        else { assert s[i] == t[i - |ws[0]| - |sep|]; }
      }
    } else if |ws| == 1 {
      assert All(ws[0], p);
    }
  }

  /** `Collapse` output is collapsed, and collapsing again changes nothing. */
  lemma CollapseShape(s: string)
    ensures Collapsed(Collapse(s))
    ensures Words(Collapse(s)) == Words(s)
    ensures Collapse(Collapse(s)) == Collapse(s)
  {
    JoinIsCollapsed(Words(s));
    WordsOfJoin(Words(s));
  }

  /** Where element `i` of `ws` starts inside `Join(ws, sep)`. */
  function JoinOffset(ws: seq<string>, sep: string, i: nat): nat
    requires i <= |ws|
  {
    if i == 0 then 0 else |ws[0]| + |sep| + JoinOffset(ws[1..], sep, i - 1)
  }

  /** `t` occurs in `s` starting at position `at`. */
  predicate OccursAt(t: string, s: string, at: nat) {
    at + |t| <= |s| && s[at..at + |t|] == t
  }

  /** Joining keeps every part intact: part `i` sits at its offset. */
  lemma {:induction false} JoinContains(ws: seq<string>, sep: string, i: nat)
    requires i < |ws|
    ensures OccursAt(ws[i], Join(ws, sep), JoinOffset(ws, sep, i))
    decreases i
  {
    if i == 0 {
      JoinStartsWith(ws, sep);
    } else {
      JoinContains(ws[1..], sep, i - 1);
      var head, t := ws[0] + sep, Join(ws[1..], sep);
      assert Join(ws, sep) == head + t;
      var at := JoinOffset(ws[1..], sep, i - 1);
      assert (head + t)[|head| + at..|head| + at + |ws[i]|] == t[at..at + |ws[i]|];
    }
  }

  /** An occurrence survives putting a prefix in front of the string. */
  lemma OccursAfterPrefix(t: string, s: string, at: nat, p: string)
    requires OccursAt(t, s, at)
    ensures OccursAt(t, p + s, |p| + at)
  {
    assert (p + s)[|p| + at..|p| + at + |t|] == s[at..at + |t|];
  }

  // ------------------------------------------------ the layout of a join

  /** The total length of the parts. */
  function SumLengths(ws: seq<string>): nat {
    if |ws| == 0 then 0 else |ws[0]| + SumLengths(ws[1..])
  }

  /** A join is as long as its parts plus one separator between each neighbouring pair. */
  lemma {:induction false} JoinLength(ws: seq<string>, sep: string)
    ensures |ws| == 0 ==> |Join(ws, sep)| == 0
    ensures |ws| > 0 ==> |Join(ws, sep)| == SumLengths(ws) + (|ws| - 1) * |sep|
    decreases |ws|
  {
    if |ws| > 1 {
      JoinLength(ws[1..], sep);
      assert (|ws| - 1) * |sep| == |sep| + (|ws| - 2) * |sep|;
    }
  }

  /** Part `i + 1` starts one separator after the end of part `i`. */
  lemma {:induction false} JoinOffsetStep(ws: seq<string>, sep: string, i: nat)
    requires i + 1 <= |ws|
    ensures JoinOffset(ws, sep, i + 1) == JoinOffset(ws, sep, i) + |ws[i]| + |sep|
    decreases i
  {
    if i > 0 {
      JoinOffsetStep(ws[1..], sep, i - 1);
    }
  }

  /** The separator sits right after every part but the last. */
  lemma {:induction false} JoinSeparatorAt(ws: seq<string>, sep: string, i: nat)
    requires i + 1 < |ws|
    ensures OccursAt(sep, Join(ws, sep), JoinOffset(ws, sep, i) + |ws[i]|)
    decreases i
  {
    var head, t := ws[0] + sep, Join(ws[1..], sep);
    assert Join(ws, sep) == head + t;
    if i == 0 {
      assert (head + t)[|ws[0]|..|ws[0]| + |sep|] == sep;
    } else {
      assert ws[1..][i - 1] == ws[i];
      JoinSeparatorAt(ws[1..], sep, i - 1);
      OccursAfterPrefix(sep, t, JoinOffset(ws[1..], sep, i - 1) + |ws[i]|, head);
    }
  }

  // ------------------------------------------- split and its inverse

  /** The parts written one after the other (`''.join(ws)`). */
  function Concat(ws: seq<string>): string {
    if |ws| == 0 then "" else ws[0] + Concat(ws[1..])
  }

  /** A prefix that passes the filter is kept whole. */
  lemma {:induction false} KeepPrefix(w: string, rest: string, p: char -> bool)
    requires All(w, p)
    ensures Keep(w + rest, p) == w + Keep(rest, p)
    decreases |w|
  {
    if |w| == 0 {
      assert w + rest == rest;
    } else {
      assert (w + rest)[1..] == w[1..] + rest;
      assert All(w[1..], p) by {
        forall i | 0 <= i < |w| - 1 ensures p(w[1..][i]) {
          assert w[1..][i] == w[i + 1];
        }
      }
      KeepPrefix(w[1..], rest, p);
      assert p((w + rest)[0]);
      assert w == [w[0]] + w[1..];
    }
  }

  /** The words of `s`, written one after the other, are exactly the
      non-whitespace characters of `s` in order: `split` loses only whitespace. */
  lemma {:induction false} WordsConcat(s: string)
    ensures Concat(Words(s)) == Keep(s, NotSpace)
    decreases |s|
  {
    if |s| > 0 {
      if IsSpace(s[0]) {
        WordsConcat(s[1..]);
      } else {
        var w := TakeWord(s);
        var rest := s[|w|..];
        assert s == w + rest;
        assert All(w, NotSpace);
        KeepPrefix(w, rest, NotSpace);
        WordsConcat(rest);
        assert Words(s)[1..] == Words(rest);
      }
    }
  }

  /** A collapsed string is its own collapsed form. */
  lemma {:induction false} CollapsedIsFixed(s: string)
    requires Collapsed(s)
    ensures Collapse(s) == s
    decreases |s|
  {
    if |s| > 0 {
      assert !IsSpace(s[0]);
      var w := TakeWord(s);
      var rest := s[|w|..];
      assert s == w + rest;
      if |rest| == 0 {
        WordsCons(w, rest);
        assert Words(rest) == [];
        assert [w] + Words(rest) == [w];
      } else {
        CollapsedAfterSpace(s, |w|);
        var t := rest[1..];
        assert rest == " " + t;
        CollapsedIsFixed(t);
        CollapseAfterWord(w, t);
      }
    }
  }

  /** A word, one space, then a collapsed string that is its own collapsed form. */
  lemma CollapseAfterWord(w: string, t: string)
    requires IsWord(w) && |t| > 0 && !IsSpace(t[0]) && Collapse(t) == t
    ensures Collapse(w + (" " + t)) == w + (" " + t)
  {
    WordsCons(w, " " + t);
    WordsSkipSpace(" ", t);
    WordsNonEmpty(t);
    var ws := Words(t);
    JoinCons(w, ws);
    assert w + " " + t == w + (" " + t);
  }

  /** A string that starts with a non-space character has at least one word. */
  lemma WordsNonEmpty(s: string)
    requires |s| > 0 && !IsSpace(s[0])
    ensures |Words(s)| > 0
  {
  }

  /** What follows an inner space of a collapsed string is collapsed and non-empty. */
  lemma CollapsedAfterSpace(s: string, k: nat)
    requires Collapsed(s) && k < |s| && IsSpace(s[k])
    ensures s[k] == ' ' && k + 1 < |s|
    ensures !IsSpace(s[k + 1]) && Collapsed(s[k + 1..])
  {
    var t := s[k + 1..];
    assert |t| > 0 ==> t[0] == s[k + 1] && t[|t| - 1] == s[|s| - 1];
    forall i | 0 <= i < |t| ensures t[i] == ' ' || !IsSpace(t[i]) {
      assert t[i] == s[k + 1 + i];
    }
    forall i | 0 <= i < |t| - 1 ensures t[i] != ' ' || t[i + 1] != ' ' {
      assert t[i] == s[k + 1 + i] && t[i + 1] == s[k + 2 + i];
    }
  }

  /** A first part in front of a non-empty split joins with one space. */
  lemma JoinCons(w: string, ws: seq<string>)
    requires |ws| > 0
    ensures Join([w] + ws, " ") == w + " " + Join(ws, " ")
  {
    assert ([w] + ws)[1..] == ws;
  }

  // --------------------------------------------- strip and lower helpers

  /** `lower` works character by character, so it distributes over concatenation. */
  lemma LowerAppend(a: string, b: string)
    ensures Lower(a + b) == Lower(a) + Lower(b)
  {
    assert forall i :: 0 <= i < |a + b| ==> Lower(a + b)[i] == (Lower(a) + Lower(b))[i];
  }

  /** Leading whitespace in front of a string is all removed by `TrimStart`. */
  lemma {:induction false} TrimStartSkip(sp: string, x: string)
    requires All(sp, IsSpace)
    ensures TrimStart(sp + x) == TrimStart(x)
    decreases |sp|
  {
    if |sp| == 0 {
      assert sp + x == x;
    } else {
      assert (sp + x)[1..] == sp[1..] + x;
      assert All(sp[1..], IsSpace) by {
        forall i | 0 <= i < |sp| - 1 ensures IsSpace(sp[1..][i]) {
          assert sp[1..][i] == sp[i + 1];
        }
      }
      TrimStartSkip(sp[1..], x);
    }
  }

  /** Trailing whitespace after a string is all removed by `TrimEnd`. */
  lemma {:induction false} TrimEndSkip(x: string, sp: string)
    requires All(sp, IsSpace)
    ensures TrimEnd(x + sp) == TrimEnd(x)
    decreases |sp|
  {
    if |sp| == 0 {
      assert x + sp == x;
    } else {
      var front := sp[..|sp| - 1];
      assert (x + sp)[..|x + sp| - 1] == x + front;
      assert All(front, IsSpace) by {
        forall i | 0 <= i < |front| ensures IsSpace(front[i]) {
          assert front[i] == sp[i];
        }
      }
      TrimEndSkip(x, front);
    }
  }

  /** Once `TrimStart` reaches a non-space character, what follows is kept as it is. */
  lemma {:induction false} TrimStartKeepsTail(u: string, v: string)
    requires |TrimStart(u)| > 0
    ensures TrimStart(u + v) == TrimStart(u) + v
    decreases |u|
  {
    if IsSpace(u[0]) {
      assert (u + v)[1..] == u[1..] + v;
      TrimStartKeepsTail(u[1..], v);
    }
  }

  /** `strip` ignores whitespace put around its argument. */
  lemma StripIgnoresPadding(pre: string, u: string, post: string)
    requires All(pre, IsSpace) && All(post, IsSpace)
    ensures Strip(pre + u + post) == Strip(u)
  {
    assert pre + u + post == pre + (u + post);
    TrimStartSkip(pre, u + post);
    if |TrimStart(u)| > 0 {
      TrimStartKeepsTail(u, post);
      TrimEndSkip(TrimStart(u), post);
    } else {
      assert All(u, IsSpace);
      TrimStartSkip(u, post);
      TrimStartSkip(post, "");
      assert post + "" == post;
    }
  }

  /** `strip` leaves alone a string with no whitespace at either end. */
  lemma StripUntrimmed(s: string)
    requires |s| > 0 ==> !IsSpace(s[0]) && !IsSpace(s[|s| - 1])
    ensures Strip(s) == s
  {
  }

  /** `pat` occurs nowhere in `s`. */
  predicate Absent(pat: string, s: string) {
    forall i :: 0 <= i <= |s| ==> !(pat <= s[i..])
  }

  /** Deleting a pattern that does not occur changes nothing. */
  lemma {:induction false} RemoveAbsent(s: string, pat: string)
    requires |pat| > 0 && Absent(pat, s)
    ensures RemoveAll(s, pat) == s
    decreases |s|
  {
    if |s| > 0 {
      assert s[0..] == s;
      assert Absent(pat, s[1..]) by {
        forall i | 0 <= i <= |s| - 1 ensures !(pat <= s[1..][i..]) {
          assert s[1..][i..] == s[i + 1..];
        }
      }
      RemoveAbsent(s[1..], pat);
      assert s == [s[0]] + s[1..];
    }
  }

  /** Keeping the characters of a string that all pass the filter keeps it whole. */
  lemma KeepAll(s: string, p: char -> bool)
    requires All(s, p)
    ensures Keep(s, p) == s
  {
    KeepPrefix(s, "", p);
    assert s + "" == s;
  }

  /** Trailing whitespace is trimmed only behind a part that starts with a
      non-space character; what stands in front of it is kept. */
  lemma {:induction false} TrimEndBehind(p: string, l: string)
    requires |l| > 0 && !IsSpace(l[0])
    ensures TrimEnd(p + l) == p + TrimEnd(l)
    decreases |l|
  {
    if IsSpace(l[|l| - 1]) {
      var front := l[..|l| - 1];
      assert (p + l)[..|p + l| - 1] == p + front;
      TrimEndBehind(p, front);
    }
  }

  /** Deleting `pat` from a string that starts with it drops that occurrence first. */
  lemma RemoveAllDrop(s: string, pat: string)
    requires |pat| > 0
    ensures RemoveAll(pat + s, pat) == RemoveAll(s, pat)
  {
    assert pat <= pat + s;
    assert (pat + s)[|pat|..] == s;
  }

  /** A first character that cannot start `pat` is kept in front. */
  lemma RemoveAllSkip(c: char, s: string, pat: string)
    requires |pat| > 0 && pat[0] != c
    ensures RemoveAll([c] + s, pat) == [c] + RemoveAll(s, pat)
  {
    assert !(pat <= [c] + s) by {
      assert ([c] + s)[0] == c;
    }
    assert ([c] + s)[1..] == s;
  }

  /** A first character is kept in front when `pat` does not start there. */
  lemma RemoveAllKeep(c: char, s: string, pat: string)
    requires |pat| > 0 && !(pat <= [c] + s)
    ensures RemoveAll([c] + s, pat) == [c] + RemoveAll(s, pat)
  {
    assert ([c] + s)[1..] == s;
  }

  /** A prefix holding no character that could start `pat` is kept whole. */
  lemma {:induction false} RemoveAllKeepsPrefix(w: string, s: string, pat: string)
    requires |pat| > 0 && pat[0] !in w
    ensures RemoveAll(w + s, pat) == w + RemoveAll(s, pat)
    decreases |w|
  {
    if |w| > 0 {
      assert w + s == [w[0]] + (w[1..] + s);
      RemoveAllSkip(w[0], w[1..] + s, pat);
      RemoveAllKeepsPrefix(w[1..], s, pat);
      assert w == [w[0]] + w[1..];
    } else {
      assert w + s == s;
    }
  }

  /** Two filters that agree on every character of `s` keep the same characters. */
  lemma {:induction false} KeepSame(s: string, p: char -> bool, q: char -> bool)
    requires forall i :: 0 <= i < |s| ==> p(s[i]) == q(s[i])
    ensures Keep(s, p) == Keep(s, q)
    decreases |s|
  {
    if |s| > 0 {
      assert forall i :: 0 <= i < |s| - 1 ==> s[1..][i] == s[i + 1];
      KeepSame(s[1..], p, q);
    }
  }

  /** A pattern ending in whitespace cannot occur in a string without whitespace. */
  lemma NoSpaceAbsent(pat: string, s: string)
    requires |pat| > 0 && IsSpace(pat[|pat| - 1])
    requires All(s, NotSpace)
    ensures Absent(pat, s)
  {
  }

  /** A string of alphanumerics is its own collapsed form. */
  lemma CollapseNoSpace(k: string)
    requires All(k, IsAlnum)
    ensures Collapse(k) == k
  {
    assert Collapsed(k);
    CollapsedIsFixed(k);
  }
}
