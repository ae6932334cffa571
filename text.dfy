/** The string operations of the JavaScript and .NET runtimes that the
    application relies on, written out over `seq<char>`. */
module Text {
  import opened Base

  /** The characters that JavaScript's `trim()` and .NET's `Trim()` and
      `IsNullOrWhiteSpace` treat as white space, as far as this model goes:
      the ASCII white-space characters, NO-BREAK SPACE and the Unicode line
      and paragraph separators. */
  predicate IsWhite(c: char) {
    c == ' ' || c == '\t' || c == '\n' || c == '\r' || c == '\U{B}' || c == '\U{C}'
    || c == '\U{A0}' || c == '\U{2028}' || c == '\U{2029}'
  }

  /** Empty, or made of white space only. */
  predicate IsBlank(s: string) {
    forall i :: 0 <= i < |s| ==> IsWhite(s[i])
  }

  /** Number of occurrences of `c` in `s`. */
  function Count(s: string, c: char): nat {
    if s == [] then 0 else (if s[0] == c then 1 else 0) + Count(s[1..], c)
  }

  /** JavaScript `s.split(sep)` for a one-character separator: the pieces
      between separators, empty pieces kept, so that `""` gives `[""]`. */
  function Split(s: string, sep: char): (r: seq<string>)
    ensures |r| == Count(s, sep) + 1
  {
    if s == [] then [[]]
    else
      var rest := Split(s[1..], sep);
      if s[0] == sep then [[]] + rest
      else [[s[0]] + rest[0]] + rest[1..]
  }

  /** No piece of a split contains the separator, and the first piece is
      what precedes the first separator. */
  lemma {:induction false} SplitPieces(s: string, sep: char)
    ensures forall i :: 0 <= i < |Split(s, sep)| ==> sep !in Split(s, sep)[i]
    ensures var first := Split(s, sep)[0];
            |first| <= |s| && first == s[..|first|] && (|first| < |s| ==> s[|first|] == sep)
  {
    if s != [] {
      SplitPieces(s[1..], sep);
      var rest := Split(s[1..], sep);
      if s[0] != sep {
        assert [s[0]] + rest[0] == s[..|rest[0]| + 1];
        assert forall i :: 1 <= i < |Split(s, sep)| ==> Split(s, sep)[i] == rest[i];
      } else {
        assert forall i :: 1 <= i < |Split(s, sep)| ==> Split(s, sep)[i] == rest[i - 1];
      }
    }
  }

  /** JavaScript `ws.join(sep)` / .NET `string.Join(sep, ws)`. */
  function Join(ws: seq<string>, sep: string): string {
    if |ws| == 0 then []
    else if |ws| == 1 then ws[0]
    else ws[0] + sep + Join(ws[1..], sep)
  }

  /** Every character of a join comes from a piece or from the
      separator. */
  lemma {:induction false} JoinChars(ws: seq<string>, sep: string, c: char)
    requires c in Join(ws, sep)
    ensures c in sep || exists i :: 0 <= i < |ws| && c in ws[i]
  {
    if |ws| > 1 {
      if c !in ws[0] && c !in sep {
        JoinChars(ws[1..], sep, c);
        var i :| 0 <= i < |ws[1..]| && c in ws[1..][i];
        assert c in ws[i + 1];
      }
    }
  }

  /** A join of non-empty pieces starts with the first piece's first
      character and ends with the last piece's last character. */
  lemma {:induction false} JoinEnds(ws: seq<string>, sep: string)
    requires |ws| > 0 && forall i :: 0 <= i < |ws| ==> ws[i] != []
    ensures var j := Join(ws, sep);
            |j| > 0 && j[0] == ws[0][0] && j[|j| - 1] == ws[|ws| - 1][|ws[|ws| - 1]| - 1]
  {
    if |ws| > 1 {
      var rest := ws[1..];
      JoinEnds(rest, sep);
      var tail := Join(rest, sep);
      assert Join(ws, sep) == ws[0] + sep + tail;
      assert rest[|rest| - 1] == ws[|ws| - 1];
    }
  }

  /** The last piece of `Split(s, sep)`: what follows the last separator. */
  function LastPiece(s: string, sep: char): string {
    var pieces := Split(s, sep);
    pieces[|pieces| - 1]
  }

  /** Joining the pieces of a split with the same separator gives back the
      string. */
  lemma {:induction false} JoinSplit(s: string, sep: char)
    ensures Join(Split(s, sep), [sep]) == s
  {
    if s != [] {
      var rest := Split(s[1..], sep);
      JoinSplit(s[1..], sep);
      if s[0] == sep {
        assert Split(s, sep) == [[]] + rest;
      } else {
        if |rest| > 1 {
          assert Join(rest, [sep]) == rest[0] + [sep] + Join(rest[1..], [sep]);
        }
      }
    }
  }

  /** A string without the separator is a single piece. */
  lemma {:induction false} SplitNoSeparator(w: string, sep: char)
    requires sep !in w
    ensures Split(w, sep) == [w]
  {
    if w != [] {
      assert w == [w[0]] + w[1..];
      SplitNoSeparator(w[1..], sep);
    }
  }

  /** Splitting `w + sep + rest` with `w` free of the separator puts `w`
      in front of the pieces of `rest`. */
  lemma {:induction false} SplitCons(w: string, sep: char, rest: string)
    requires sep !in w
    ensures Split(w + [sep] + rest, sep) == [w] + Split(rest, sep)
  {
    if w == [] {
      assert [] + [sep] + rest == [sep] + rest;
      assert ([sep] + rest)[1..] == rest;
    } else {
      SplitCons(w[1..], sep, rest);
      assert w == [w[0]] + w[1..];
      assert (w + [sep] + rest)[1..] == w[1..] + [sep] + rest;
    }
  }

  /** Splitting undoes joining, for pieces that do not contain the
      separator. */
  lemma {:induction false} SplitJoin(ws: seq<string>, sep: char)
    requires |ws| >= 1
    requires forall i :: 0 <= i < |ws| ==> sep !in ws[i]
    ensures Split(Join(ws, [sep]), sep) == ws
  {
    if |ws| == 1 {
      SplitNoSeparator(ws[0], sep);
    } else {
      SplitJoin(ws[1..], sep);
      SplitCons(ws[0], sep, Join(ws[1..], [sep]));
    }
  }

  /** .NET `TrimStart()` / JavaScript `trimStart()`: what is left after the
      leading white space. */
  function TrimStart(s: string): (r: string)
    ensures |r| <= |s|
  {
    if s != [] && IsWhite(s[0]) then TrimStart(s[1..]) else s
  }

  /** `TrimStart` keeps a suffix that starts with a non-white character and
      drops white space only. */
  lemma {:induction false} TrimStartSuffix(s: string)
    ensures var r := TrimStart(s);
            && r == s[|s| - |r|..]
            && (r == [] || !IsWhite(r[0]))
            && IsBlank(s[..|s| - |r|])
  {
    if s != [] && IsWhite(s[0]) {
      TrimStartSuffix(s[1..]);
      var r := TrimStart(s);
      assert s[1..][..|s| - 1 - |r|] == s[1..|s| - |r|];
    }
  }

  /** .NET `TrimEnd()` / JavaScript `trimEnd()`: what is left before the
      trailing white space. */
  function TrimEnd(s: string): (r: string)
    ensures |r| <= |s|
  {
    if s != [] && IsWhite(s[|s| - 1]) then TrimEnd(s[..|s| - 1]) else s
  }

  /** `TrimEnd` keeps a prefix that ends with a non-white character and
      drops white space only. */
  lemma {:induction false} TrimEndPrefix(s: string)
    ensures var r := TrimEnd(s);
            && r == s[..|r|]
            && (r == [] || !IsWhite(r[|r| - 1]))
            && IsBlank(s[|r|..])
  {
    if s != [] && IsWhite(s[|s| - 1]) {
      var t := s[..|s| - 1];
      TrimEndPrefix(t);
      var r := TrimEnd(s);
      assert t[..|r|] == s[..|r|];
      assert forall i :: 0 <= i < |s| - 1 - |r| ==> s[|r|..][i] == t[|r|..][i];
    }
  }

  /** .NET `Trim()` / JavaScript `trim()`: white space removed at both ends. */
  function Trim(s: string): (r: string)
    ensures |r| <= |s|
  {
    TrimEnd(TrimStart(s))
  }

  /** What trimming keeps is empty exactly when `s` is blank, and otherwise
      starts and ends with non-white characters; every kept character comes
      from `s`. */
  lemma TrimProperties(s: string)
    ensures Trim(s) == [] <==> IsBlank(s)
    ensures Trim(s) == [] || (!IsWhite(Trim(s)[0]) && !IsWhite(Trim(s)[|Trim(s)| - 1]))
    ensures forall c :: c in Trim(s) ==> c in s
  {
    var front := TrimStart(s);
    var r := TrimEnd(front);
    TrimStartSuffix(s);
    TrimEndPrefix(front);
    assert forall i :: 0 <= i < |r| ==> r[i] == s[|s| - |front| + i];
    if r == [] {
      assert front == [];
      assert forall i :: 0 <= i < |s| ==> s[i] == s[..|s| - |front|][i];
    } else {
      assert !IsWhite(s[|s| - |front|]);
      assert r[0] == front[0];
    }
  }

  /** A string that starts and ends with non-white characters trims to
      itself. */
  lemma TrimOfTrimmed(s: string)
    requires s != [] && !IsWhite(s[0]) && !IsWhite(s[|s| - 1])
    ensures Trim(s) == s
  {
  }

  /** The pieces of `ws` that do not trim to the empty string, in order:
      JavaScript `ws.filter(w => w.trim() !== '')`. By `TrimProperties`, a
      piece trims to the empty string exactly when it is blank. */
  function KeepNonBlank(ws: seq<string>): (r: seq<string>)
    ensures |r| <= |ws|
    ensures forall w :: w in r ==> w in ws && !IsBlank(w)
  {
    if ws == [] then []
    else if !IsBlank(ws[0]) then [ws[0]] + KeepNonBlank(ws[1..])
    else KeepNonBlank(ws[1..])
  }

  /** The filter keeps every non-blank piece. */
  lemma {:induction false} KeepNonBlankComplete(ws: seq<string>, w: string)
    requires w in ws && !IsBlank(w)
    ensures w in KeepNonBlank(ws)
  {
    if ws[0] != w {
      assert w in ws[1..];
      KeepNonBlankComplete(ws[1..], w);
    }
  }

  /** The words of a text as the typing test sees them: the non-blank
      pieces of a split on single spaces. */
  function Words(content: string): (r: seq<string>)
    ensures forall w :: w in r ==> w != [] && ' ' !in w && !IsBlank(w)
  {
    SplitPieces(content, ' ');
    KeepNonBlank(Split(content, ' '))
  }

  /** JavaScript `s[i]`: the character at index i, or `undefined`. */
  function At(s: string, i: int): Option<char> {
    if 0 <= i < |s| then Some(s[i]) else None
  }

  /** JavaScript `a.slice(begin, end)`: negative indices count from the end
      and both are clamped to the array. */
  function JsSlice<T(==)>(s: seq<T>, begin: int, end: int): (r: seq<T>)
    ensures 0 <= begin && 0 <= end ==>
      r == if Min(begin, |s|) <= Min(end, |s|) then s[Min(begin, |s|)..Min(end, |s|)] else []
    ensures begin < 0 || 0 <= end ==> |r| <= Max(0, end - begin)
    ensures forall x :: x in r ==> x in s
  {
    var b := if begin < 0 then Max(|s| + begin, 0) else Min(begin, |s|);
    var e := if end < 0 then Max(|s| + end, 0) else Min(end, |s|);
    if b < e then s[b..e] else []
  }

  /** ASCII `toLowerCase` of one character. */
  function LowerChar(c: char): char {
    if 'A' <= c <= 'Z' then (c as int + 32) as char else c
  }

  /** ASCII `toUpperCase` of one character. */
  function UpperChar(c: char): char {
    if 'a' <= c <= 'z' then (c as int - 32) as char else c
  }

  /** JavaScript `toLowerCase()` / .NET `ToLowerInvariant()` on ASCII letters. */
  function Lower(s: string): (r: string)
    ensures |r| == |s| && forall i :: 0 <= i < |s| ==> r[i] == LowerChar(s[i])
  {
    seq(|s|, i requires 0 <= i < |s| => LowerChar(s[i]))
  }

  predicate IsPrefix(p: string, s: string) {
    |p| <= |s| && s[..|p|] == p
  }

  /** JavaScript `s.includes(sub)`. */
  predicate Includes(s: string, sub: string)
    decreases |s|
  {
    IsPrefix(sub, s) || (s != [] && Includes(s[1..], sub))
  }

  /** `sub` occurs in `s` starting at index k. */
  predicate OccursAt(s: string, sub: string, k: int) {
    0 <= k <= |s| - |sub| && s[k..k + |sub|] == sub
  }

  /** `Includes` holds exactly when `sub` occurs at some position of `s`. */
  lemma {:induction false} IncludesAt(s: string, sub: string)
    ensures Includes(s, sub) <==> exists k :: OccursAt(s, sub, k)
  {
    if IsPrefix(sub, s) {
      assert OccursAt(s, sub, 0);
    }
    if s == [] {
      if exists k :: OccursAt(s, sub, k) {
        var k :| OccursAt(s, sub, k);
        assert IsPrefix(sub, s);
      }
    } else {
      IncludesAt(s[1..], sub);
      if Includes(s[1..], sub) {
        var k :| OccursAt(s[1..], sub, k);
        assert s[k + 1..k + 1 + |sub|] == s[1..][k..k + |sub|];
        assert OccursAt(s, sub, k + 1);
      }
      if exists k :: OccursAt(s, sub, k) {
        var k :| OccursAt(s, sub, k);
        if k > 0 {
          assert s[1..][k - 1..k - 1 + |sub|] == s[k..k + |sub|];
          assert OccursAt(s[1..], sub, k - 1);
        }
      }
    }
  }
}
