/**
 * The parts of Go's `strings` package the secret commands rely on, on `seq<char>`:
 * `Split` and `SplitN(_, _, 2)` with a one-character separator, `Contains`,
 * `Replace(_, "\\t", "\t", -1)`, and the text `fmt.Println` writes for a list of names.
 */
module Text {

  /** Position of the first occurrence of `c` in `s`. */
  function IndexOf(s: string, c: char): (i: nat)
    requires c in s
    ensures i < |s| && s[i] == c
  {
    if s[0] == c then 0
    else
      assert s == [s[0]] + s[1..];
      1 + IndexOf(s[1..], c)
  }

  /** `IndexOf` finds the first occurrence: `c` does not occur before it. */
  lemma {:induction false} IndexOfFirst(s: string, c: char)
    requires c in s
    ensures c !in s[..IndexOf(s, c)]
    decreases |s|
  {
    if s[0] != c {
      assert s == [s[0]] + s[1..];
      IndexOfFirst(s[1..], c);
      assert s[..IndexOf(s, c)] == [s[0]] + s[1..][..IndexOf(s[1..], c)];
    }
  }

  /** A position holding `c` with no `c` before it is the one `IndexOf` finds. */
  lemma IndexOfAt(s: string, c: char, i: nat)
    requires i < |s| && s[i] == c && c !in s[..i]
    ensures c in s && IndexOf(s, c) == i
  {
    assert s[i] in s;
    var k := IndexOf(s, c);
    IndexOfFirst(s, c);
    assert forall j :: 0 <= j < i ==> s[..i][j] == s[j];
    assert forall j :: 0 <= j < k ==> s[..k][j] == s[j];
  }

  /** The text before the first `c`, or all of `s` when there is none. */
  function TakeUntil(s: string, c: char): (r: string)
  {
    if c in s then s[..IndexOf(s, c)] else s
  }

  /**
   * `strings.Split(s, string(sep))`: the pieces between separators, so there is always
   * one more piece than there are separators and the empty string yields `[""]`.
   */
  function Split(s: string, sep: char): (parts: seq<string>)
    ensures |parts| >= 1
    decreases |s|
  {
    if sep in s then
      var i := IndexOf(s, sep);
      [s[..i]] + Split(s[i + 1..], sep)
    else
      [s]
  }

  /** With a separator in `s`, the first piece is the text before it and the rest split the text after it. */
  lemma SplitAt(s: string, sep: char)
    requires sep in s
    ensures var i := IndexOf(s, sep);
      && Split(s, sep) == [s[..i]] + Split(s[i + 1..], sep)
      && s == s[..i] + [sep] + s[i + 1..]
  {
    CutAt(s, IndexOf(s, sep));
  }

  /** A text is what comes before position `i`, the character at `i`, and what comes after. */
  lemma CutAt(s: string, i: nat)
    requires i < |s|
    ensures s == s[..i] + [s[i]] + s[i + 1..]
  {
    var t := s[..i] + [s[i]] + s[i + 1..];
    forall j | 0 <= j < |s| ensures t[j] == s[j] {
      if j < i {
        assert t[j] == s[..i][j];
      } else if j > i {
        assert t[j] == s[i + 1..][j - i - 1];
      }
    }
  }

  /**
   * A split has one piece exactly when the separator does not occur, and its first piece is
   * the text up to the first separator.
   */
  lemma SplitHead(s: string, sep: char)
    ensures |Split(s, sep)| == 1 <==> sep !in s
    ensures Split(s, sep)[0] == TakeUntil(s, sep)
  {
    if sep in s {
      SplitAt(s, sep);
    }
  }

  /** No piece of a split holds the separator. */
  lemma {:induction false} SplitPiecesLackSeparator(s: string, sep: char)
    ensures forall k :: 0 <= k < |Split(s, sep)| ==> sep !in Split(s, sep)[k]
    decreases |s|
  {
    if sep in s {
      var i := IndexOf(s, sep);
      var rest := Split(s[i + 1..], sep);
      SplitAt(s, sep);
      SplitPiecesLackSeparator(s[i + 1..], sep);
      IndexOfFirst(s, sep);
      forall k | 0 <= k < 1 + |rest| ensures sep !in ([s[..i]] + rest)[k] {
        if k > 0 {
          assert ([s[..i]] + rest)[k] == rest[k - 1];
        }
      }
    }
  }

  /** `strings.Join(parts, string(sep))`. */
  function Join(parts: seq<string>, sep: char): (s: string)
    requires |parts| >= 1
    decreases |parts|
  {
    if |parts| == 1 then parts[0] else parts[0] + [sep] + Join(parts[1..], sep)
  }

  /** Splitting and joining on the same separator gives back the original text. */
  lemma {:induction false} JoinSplit(s: string, sep: char)
    ensures Join(Split(s, sep), sep) == s
    decreases |s|
  {
    if sep in s {
      var i := IndexOf(s, sep);
      var head, rest := s[..i], s[i + 1..];
      var tailParts := Split(rest, sep);
      SplitAt(s, sep);
      assert ([head] + tailParts)[1..] == tailParts;
      JoinSplit(rest, sep);
    }
  }

  /** Splitting a join gives back the pieces, provided none of them holds the separator. */
  lemma {:induction false} SplitJoin(parts: seq<string>, sep: char)
    requires |parts| >= 1
    requires forall k :: 0 <= k < |parts| ==> sep !in parts[k]
    ensures Split(Join(parts, sep), sep) == parts
    decreases |parts|
  {
    if |parts| > 1 {
      var head := parts[0];
      var rest := Join(parts[1..], sep);
      var s := head + [sep] + rest;
      assert Join(parts, sep) == s;
      assert s[..|head|] == head;
      IndexOfAt(s, sep, |head|);
      assert s[|head| + 1..] == rest;
      SplitAt(s, sep);
      SplitJoin(parts[1..], sep);
      assert parts == [head] + parts[1..];
    }
  }

  /**
   * `strings.SplitN(s, string(sep), 2)`: at most two pieces, cut at the first separator only,
   * so the second piece may still contain separators.
   */
  function SplitN2(s: string, sep: char): (parts: seq<string>)
    ensures 1 <= |parts| <= 2
    ensures |parts| == 2 <==> sep in s
    ensures parts[0] == TakeUntil(s, sep)
    ensures |parts| == 2 ==> s == parts[0] + [sep] + parts[1]
  {
    if sep in s then
      var i := IndexOf(s, sep);
      assert s == s[..i] + [sep] + s[i + 1..];
      [s[..i], s[i + 1..]]
    else
      [s]
  }

  /** True iff `sub` occurs in `s` at position `i`. */
  ghost predicate OccursAt(s: string, sub: string, i: int)
  {
    0 <= i && i + |sub| <= |s| && s[i..i + |sub|] == sub
  }

  /** `strings.Contains(s, sub)`, tried at each starting position from left to right. */
  function Contains(s: string, sub: string): bool
    decreases |s|
  {
    sub <= s || (|s| > 0 && Contains(s[1..], sub))
  }

  /** `Contains` holds exactly when `sub` occurs somewhere in `s`. */
  lemma {:induction false} ContainsIffOccurs(s: string, sub: string)
    ensures Contains(s, sub) <==> exists i :: OccursAt(s, sub, i)
    decreases |s|
  {
    if sub <= s {
      assert OccursAt(s, sub, 0);
    } else if |s| == 0 {
      assert sub != [];
    } else {
      ContainsIffOccurs(s[1..], sub);
      forall i | 1 <= i
        ensures OccursAt(s, sub, i) <==> OccursAt(s[1..], sub, i - 1)
      {
        if i + |sub| <= |s| {
          TailSlice(s, i, |sub|);
        }
      }
      assert !OccursAt(s, sub, 0);
      if Contains(s[1..], sub) {
        var i :| OccursAt(s[1..], sub, i);
        assert OccursAt(s, sub, i + 1);
      }
    }
  }

  /** A slice of the tail is the slice of the whole one position further on. */
  lemma TailSlice(s: string, i: nat, n: nat)
    requires 1 <= i && i + n <= |s|
    ensures s[1..][i - 1..i - 1 + n] == s[i..i + n]
  {
    assert forall k :: i <= k < i + n ==> s[1..][k - 1] == s[k];
  }

  /** The empty string is contained in every string. */
  lemma ContainsEmpty(s: string)
    ensures Contains(s, "")
  {
    assert "" <= s;
  }

  /** The two-character text backslash-t that operators type on a command line. */
  const EscapedTab: string := ['\\', 't']

  /** True iff `s` holds a backslash immediately followed by `t`. */
  ghost predicate HasEscapedTab(s: string)
  {
    exists i :: 0 <= i < |s| - 1 && s[i] == '\\' && s[i + 1] == 't'
  }

  /**
   * `strings.Replace(s, "\\t", "\t", -1)`: every backslash-t, found left to right without
   * overlap, becomes one tab character; everything else is copied.
   */
  function ReplaceTabs(s: string): (r: string)
    decreases |s|
  {
    if |s| == 0 then ""
    else if |s| >= 2 && s[0] == '\\' && s[1] == 't' then "\t" + ReplaceTabs(s[2..])
    else [s[0]] + ReplaceTabs(s[1..])
  }

  /** The first character of `ReplaceTabs(s)`: a tab when `s` opens with backslash-t, else `s[0]`. */
  lemma ReplaceTabsHead(s: string)
    requires |s| > 0
    ensures |ReplaceTabs(s)| > 0
    ensures ReplaceTabs(s)[0] == if |s| >= 2 && s[0] == '\\' && s[1] == 't' then '\t' else s[0]
  {
  }

  /** After the replacement no backslash-t is left. */
  lemma {:induction false} ReplaceTabsLeavesNoEscape(s: string)
    ensures !HasEscapedTab(ReplaceTabs(s))
    decreases |s|
  {
    if |s| == 0 {
    } else if |s| >= 2 && s[0] == '\\' && s[1] == 't' {
      ReplaceTabsLeavesNoEscape(s[2..]);
      var tail := ReplaceTabs(s[2..]);
      var r := ReplaceTabs(s);
      assert r == "\t" + tail;
      forall i | 0 <= i < |r| - 1 ensures !(r[i] == '\\' && r[i + 1] == 't') {
        if i > 0 {
          assert r[i] == tail[i - 1] && r[i + 1] == tail[i];
        }
      }
    } else {
      ReplaceTabsLeavesNoEscape(s[1..]);
      var tail := ReplaceTabs(s[1..]);
      var r := ReplaceTabs(s);
      assert r == [s[0]] + tail;
      forall i | 0 <= i < |r| - 1 ensures !(r[i] == '\\' && r[i + 1] == 't') {
        if i == 0 {
          ReplaceTabsHead(s[1..]);
        } else {
          assert r[i] == tail[i - 1] && r[i + 1] == tail[i];
        }
      }
    }
  }

  /** Text without backslash-t is left exactly as it is. */
  lemma {:induction false} ReplaceTabsIdentity(s: string)
    ensures !HasEscapedTab(s) ==> ReplaceTabs(s) == s
    decreases |s|
  {
    if |s| > 0 && !HasEscapedTab(s) {
      assert !(|s| >= 2 && s[0] == '\\' && s[1] == 't');
      forall i | 0 <= i < |s[1..]| - 1 ensures !(s[1..][i] == '\\' && s[1..][i + 1] == 't') {
        assert s[1..][i] == s[i + 1] && s[1..][i + 1] == s[i + 2];
      }
      ReplaceTabsIdentity(s[1..]);
    }
  }

  /** Replacing twice is the same as replacing once. */
  lemma ReplaceTabsIdempotent(s: string)
    ensures ReplaceTabs(ReplaceTabs(s)) == ReplaceTabs(s)
  {
    ReplaceTabsLeavesNoEscape(s);
    ReplaceTabsIdentity(ReplaceTabs(s));
  }

  /**
   * The replacement works piece by piece: it distributes over a concatenation unless the
   * cut separates a backslash from the `t` that follows it.
   */
  lemma {:induction false} ReplaceTabsAppend(a: string, b: string)
    requires !(|a| > 0 && |b| > 0 && a[|a| - 1] == '\\' && b[0] == 't')
    ensures ReplaceTabs(a + b) == ReplaceTabs(a) + ReplaceTabs(b)
    decreases |a|
  {
    if |a| == 0 {
      assert a + b == b;
    } else if |a| >= 2 && a[0] == '\\' && a[1] == 't' {
      assert (a + b)[2..] == a[2..] + b;
      ReplaceTabsAppend(a[2..], b);
    } else if |a| == 1 {
      assert (a + b)[1..] == b;
      assert !(|a + b| >= 2 && (a + b)[0] == '\\' && (a + b)[1] == 't');
      assert ReplaceTabs(a) == [a[0]];
    } else {
      assert (a + b)[1..] == a[1..] + b;
      ReplaceTabsAppend(a[1..], b);
    }
  }

  /**
   * Each backslash-t becomes one tab wherever it stands; the text before it and the text
   * after it are replaced on their own.
   */
  lemma ReplaceTabsEscape(a: string, b: string)
    ensures ReplaceTabs(a + EscapedTab + b) == ReplaceTabs(a) + "\t" + ReplaceTabs(b)
  {
    var rest := EscapedTab + b;
    assert a + EscapedTab + b == a + rest;
    ReplaceTabsAppend(a, rest);
    assert rest[2..] == b;
  }

  /** Any character that does not open a backslash-t is copied, and the replacement goes on after it. */
  lemma ReplaceTabsCopies(c: char, b: string)
    requires !(c == '\\' && |b| > 0 && b[0] == 't')
    ensures ReplaceTabs([c] + b) == [c] + ReplaceTabs(b)
  {
    assert ([c] + b)[1..] == b;
  }

  /** What `fmt.Println` writes for each name in turn: the name and a newline. */
  function JoinLines(lines: seq<string>): (text: string)
    decreases |lines|
  {
    if |lines| == 0 then "" else JoinLines(lines[..|lines| - 1]) + lines[|lines| - 1] + "\n"
  }

  /**
   * Splitting printed lines on newlines gives back every line, then the empty text after
   * the last newline, provided no line holds a newline of its own.
   */
  lemma {:induction false} SplitJoinLines(lines: seq<string>)
    requires forall k :: 0 <= k < |lines| ==> '\n' !in lines[k]
    ensures Split(JoinLines(lines), '\n') == lines + [""]
  {
    JoinLinesIsJoin(lines);
    SplitJoin(lines + [""], '\n');
  }

  /** Printed lines are the lines and a final empty piece joined by newlines. */
  lemma {:induction false} JoinLinesIsJoin(lines: seq<string>)
    ensures JoinLines(lines) == Join(lines + [""], '\n')
    decreases |lines|
  {
    if |lines| > 0 {
      var init := lines[..|lines| - 1];
      var last := lines[|lines| - 1];
      JoinLinesIsJoin(init);
      JoinSnoc(init, last);
      assert init + [last] == lines;
    }
  }

  /** Joining with one more empty piece at the end adds the separator after the last piece. */
  lemma {:induction false} JoinSnoc(init: seq<string>, last: string)
    ensures Join(init + [last] + [""], '\n') == Join(init + [""], '\n') + last + "\n"
    decreases |init|
  {
    if |init| == 0 {
      assert [last] + [""] == [last, ""];
      assert Join([last, ""], '\n') == last + "\n" + Join([""], '\n');
    } else {
      assert (init + [last] + [""])[1..] == init[1..] + [last] + [""];
      assert (init + [""])[1..] == init[1..] + [""];
      JoinSnoc(init[1..], last);
    }
  }
}
