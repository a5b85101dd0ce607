/** String operations the cleaning steps rely on: Python's whitespace test,
    `str.strip`, the `\s+` -> " " substitution, `str.title`, `str.upper`,
    `str.lower`, and code-point ordering of strings.

    Case mapping is ASCII-only: a character outside `A`-`Z`/`a`-`z` is treated
    as uncased and left as it is. */
module Text {

  /** The code-point ranges of the characters for which Python's
      `str.isspace()` holds; `str.strip()` and the regular-expression class
      `\s` use the same set. */
  const SpaceRanges: seq<(int, int)> :=
    [(0x09, 0x0D), (0x1C, 0x20), (0x85, 0x85), (0xA0, 0xA0), (0x1680, 0x1680),
     (0x2000, 0x200A), (0x2028, 0x2029), (0x202F, 0x202F), (0x205F, 0x205F), (0x3000, 0x3000)]

  predicate InRanges(n: int, k: nat)
    decreases |SpaceRanges| - k
  {
    k < |SpaceRanges| && (SpaceRanges[k].0 <= n <= SpaceRanges[k].1 || InRanges(n, k + 1))
  }

  predicate IsSpace(c: char) { InRanges(c as int, 0) }

  lemma {:induction false} LettersAboveSpaces(n: int, k: nat)
    requires 65 <= n <= 122
    ensures !InRanges(n, k)
    decreases |SpaceRanges| - k
  {
    if k < |SpaceRanges| { LettersAboveSpaces(n, k + 1); }
  }

  /** The non-whitespace characters of `s`, in order. */
  function NonSpace(s: string): string {
    if |s| == 0 then "" else (if IsSpace(s[0]) then "" else [s[0]]) + NonSpace(s[1..])
  }

  /** Every character of `w` is whitespace. */
  predicate AllSpace(w: string) {
    forall k :: 0 <= k < |w| ==> IsSpace(w[k])
  }

  lemma {:induction false} NonSpaceAppend(a: string, b: string)
    ensures NonSpace(a + b) == NonSpace(a) + NonSpace(b)
  {
    if |a| > 0 {
      assert (a + b)[1..] == a[1..] + b;
      NonSpaceAppend(a[1..], b);
    } else {
      assert a + b == b;
    }
  }

  /** `s` with its leading whitespace removed. */
  function TrimStart(s: string): (r: string)
    ensures |r| <= |s| && r == s[|s| - |r|..]
    ensures |s| > 0 && IsSpace(s[0]) ==> |r| < |s|
    ensures |r| > 0 ==> !IsSpace(r[0])
  {
    if |s| > 0 && IsSpace(s[0]) then TrimStart(s[1..]) else s
  }

  /** What `TrimStart` drops is whitespace. */
  lemma {:induction false} TrimStartEdge(s: string)
    ensures AllSpace(s[..|s| - |TrimStart(s)|])
  {
    if |s| > 0 && IsSpace(s[0]) {
      TrimStartEdge(s[1..]);
      SpaceCons(s, TrimStart(s[1..]));
    }
  }

  lemma SpaceCons(s: string, r: string)
    requires |s| > 0 && IsSpace(s[0]) && |r| <= |s| - 1
    requires AllSpace(s[1..][..|s[1..]| - |r|])
    ensures AllSpace(s[..|s| - |r|])
  {
    var head, rest := s[..|s| - |r|], s[1..][..|s[1..]| - |r|];
    forall k | 1 <= k < |head| ensures IsSpace(head[k]) {
      assert head[k] == rest[k - 1];
    }
  }

  lemma {:induction false} TrimStartDropsSpaces(s: string)
    ensures forall i :: 0 <= i < |s| - |TrimStart(s)| ==> IsSpace(s[i])
    ensures NonSpace(TrimStart(s)) == NonSpace(s)
  {
    if |s| > 0 && IsSpace(s[0]) {
      var t := s[1..];
      TrimStartDropsSpaces(t);
      assert TrimStart(s) == TrimStart(t);
      forall i | 1 <= i < |s| - |TrimStart(s)| ensures IsSpace(s[i]) {
        assert s[i] == t[i - 1];
      }
    }
  }

  /** `s` with its trailing whitespace removed. */
  function TrimEnd(s: string): (r: string)
    ensures |r| <= |s| && r == s[..|r|]
    ensures |r| > 0 ==> !IsSpace(r[|r| - 1])
  {
    if |s| > 0 && IsSpace(s[|s| - 1]) then TrimEnd(s[..|s| - 1]) else s
  }

  /** What `TrimEnd` drops is whitespace. */
  lemma {:induction false} TrimEndEdge(s: string)
    ensures AllSpace(s[|TrimEnd(s)|..])
  {
    if |s| > 0 && IsSpace(s[|s| - 1]) {
      TrimEndEdge(s[..|s| - 1]);
      SpaceSnoc(s, TrimEnd(s[..|s| - 1]));
    }
  }

  lemma SpaceSnoc(s: string, r: string)
    requires |s| > 0 && IsSpace(s[|s| - 1]) && |r| <= |s| - 1
    requires AllSpace(s[..|s| - 1][|r|..])
    ensures AllSpace(s[|r|..])
  {
    var tail, rest := s[|r|..], s[..|s| - 1][|r|..];
    forall k | 0 <= k < |tail| - 1 ensures IsSpace(tail[k]) {
      assert tail[k] == rest[k];
    }
  }

  lemma {:induction false} TrimEndDropsSpaces(s: string)
    ensures forall i :: |TrimEnd(s)| <= i < |s| ==> IsSpace(s[i])
    ensures NonSpace(TrimEnd(s)) == NonSpace(s)
  {
    if |s| > 0 && IsSpace(s[|s| - 1]) {
      var p := s[..|s| - 1];
      assert s == p + [s[|s| - 1]];
      NonSpaceAppend(p, [s[|s| - 1]]);
      TrimEndDropsSpaces(p);
      assert TrimEnd(s) == TrimEnd(p);
      forall i | |TrimEnd(s)| <= i < |s| - 1 ensures IsSpace(s[i]) {
        assert s[i] == p[i];
      }
    }
  }

  /** Leading whitespace followed by text that does not start with
      whitespace trims to that text. */
  lemma {:induction false} TrimStartRun(w: string, b: string)
    requires AllSpace(w)
    requires |b| > 0 ==> !IsSpace(b[0])
    ensures TrimStart(w + b) == b
    decreases |w|
  {
    if |w| == 0 {
      assert w + b == b;
    } else {
      assert (w + b)[0] == w[0];
      assert (w + b)[1..] == w[1..] + b;
      TrimStartRun(w[1..], b);
    }
  }

  /** Trimming the front of `a + x` trims only within `a` when `a` holds
      some non-whitespace character. */
  lemma {:induction false} TrimStartAppend(a: string, x: string)
    requires |TrimStart(a)| > 0
    ensures TrimStart(a + x) == TrimStart(a) + x
    decreases |a|
  {
    assert (a + x)[0] == a[0];
    if IsSpace(a[0]) {
      assert (a + x)[1..] == a[1..] + x;
      TrimStartAppend(a[1..], x);
    }
  }

  /** Trimming the end of `x + b` trims only within `b` when `b` holds some
      non-whitespace character. */
  lemma {:induction false} TrimEndPrepend(x: string, b: string)
    requires |TrimEnd(b)| > 0
    ensures TrimEnd(x + b) == x + TrimEnd(b)
    decreases |b|
  {
    SnocSplit(x, b);
    if IsSpace(b[|b| - 1]) {
      TrimEndPrepend(x, b[..|b| - 1]);
    }
  }

  lemma SnocSplit(x: string, b: string)
    requires |b| > 0
    ensures (x + b)[|x + b| - 1] == b[|b| - 1]
    ensures (x + b)[..|x + b| - 1] == x + b[..|b| - 1]
  {
  }


  /** `s` is `r` at offset `i`, with only whitespace before and after it. */
  predicate Padded(s: string, i: int, r: string) {
    0 <= i <= |s| - |r| && r == s[i..i + |r|] && AllSpace(s[..i]) && AllSpace(s[i + |r|..])
  }

  lemma PaddedByTrims(s: string, u: string, r: string)
    requires |u| <= |s| && u == s[|s| - |u|..] && AllSpace(s[..|s| - |u|])
    requires |r| <= |u| && r == u[..|r|] && AllSpace(u[|r|..])
    ensures Padded(s, |s| - |u|, r)
  {
    var i := |s| - |u|;
    assert s[i..][..|r|] == s[i..i + |r|];
    assert s[i..][|r|..] == s[i + |r|..];
  }

  /** Python's `str.strip()` with no argument: the part of `s` between its
      leading and its trailing whitespace. */
  function Strip(s: string): (r: string)
    ensures exists i :: Padded(s, i, r)
    ensures |r| > 0 ==> !IsSpace(r[0]) && !IsSpace(r[|r| - 1])
    ensures NonSpace(r) == NonSpace(s)
    ensures |s| > 0 && !IsSpace(s[0]) && !IsSpace(s[|s| - 1]) ==> r == s
  {
    TrimStartDropsSpaces(s);
    TrimEndDropsSpaces(TrimStart(s));
    TrimStartEdge(s);
    TrimEndEdge(TrimStart(s));
    PaddedByTrims(s, TrimStart(s), TrimEnd(TrimStart(s)));
    TrimEnd(TrimStart(s))
  }

  /** Every whitespace character is a plain space and no two of them are adjacent. */
  predicate Collapsed(s: string) {
    && (forall i :: 0 <= i < |s| && IsSpace(s[i]) ==> s[i] == ' ')
    && (forall i, k :: 0 <= i < |s| && 0 <= k < |s| && k == i + 1 ==> !(IsSpace(s[i]) && IsSpace(s[k])))
  }

  /** The form `clean_whitespace` produces: stripped and collapsed. */
  predicate NormalForm(s: string) {
    Collapsed(s) && (|s| > 0 ==> !IsSpace(s[0]) && !IsSpace(s[|s| - 1]))
  }

  /** The substitution of the regular expression `\s+` by a single space. */
  function Collapse(s: string): (r: string)
    ensures |r| == 0 <==> |s| == 0
    ensures |s| > 0 && !IsSpace(s[0]) ==> r[0] == s[0]
  {
    if |s| == 0 then ""
    else if IsSpace(s[0]) then " " + Collapse(TrimStart(s))
    else [s[0]] + Collapse(s[1..])
  }

  lemma CollapsedCons(x: char, c: string)
    requires Collapsed(c)
    requires IsSpace(x) ==> x == ' ' && (|c| > 0 ==> !IsSpace(c[0]))
    ensures Collapsed([x] + c)
  {
    var r := [x] + c;
    forall i | 0 <= i < |r| && IsSpace(r[i])
      ensures r[i] == ' ' && (i + 1 < |r| ==> !IsSpace(r[i + 1]))
    {
      if i > 0 {
        assert r[i] == c[i - 1];
        assert i + 1 < |r| ==> r[i + 1] == c[i];
      }
    }
  }

  lemma {:induction false} CollapseIsCollapsed(s: string)
    ensures Collapsed(Collapse(s))
    decreases |s|
  {
    if |s| > 0 {
      if IsSpace(s[0]) {
        var t := TrimStart(s);
        CollapseIsCollapsed(t);
        CollapsedCons(' ', Collapse(t));
      } else {
        CollapseIsCollapsed(s[1..]);
        CollapsedCons(s[0], Collapse(s[1..]));
      }
    }
  }

  lemma NonSpaceCons(x: char, c: string)
    ensures NonSpace([x] + c) == (if IsSpace(x) then "" else [x]) + NonSpace(c)
  {
    assert ([x] + c)[0] == x;
    assert ([x] + c)[1..] == c;
  }

  lemma BlankIsSpace()
    ensures IsSpace(' ')
  {
    assert InRanges(' ' as int, 1);
  }

  lemma {:induction false} CollapseKeepsNonSpace(s: string)
    ensures NonSpace(Collapse(s)) == NonSpace(s)
    decreases |s|
  {
    if |s| > 0 {
      var x, y := if IsSpace(s[0]) then TrimStart(s) else s[1..], if IsSpace(s[0]) then ' ' else s[0];
      CollapseKeepsNonSpace(x);
      assert Collapse(s) == [y] + Collapse(x);
      NonSpaceCons(y, Collapse(x));
      if IsSpace(s[0]) {
        TrimStartDropsSpaces(s);
        BlankIsSpace();
      } else {
        NonSpaceCons(s[0], x);
        assert [s[0]] + x == s;
      }
    }
  }

  lemma {:induction false} CollapseKeepsLast(s: string)
    requires |s| > 0 && !IsSpace(s[|s| - 1])
    ensures !IsSpace(Collapse(s)[|Collapse(s)| - 1])
    decreases |s|
  {
    var r := Collapse(s);
    if IsSpace(s[0]) {
      var t := TrimStart(s);
      TrimStartDropsSpaces(s);
      assert |t| > 0 && t[|t| - 1] == s[|s| - 1];
      CollapseKeepsLast(t);
      assert r == " " + Collapse(t);
    } else if |s| > 1 {
      CollapseKeepsLast(s[1..]);
      assert r == [s[0]] + Collapse(s[1..]);
    }
  }

  lemma Regroup(x: string, y: string, z: string)
    ensures x + (y + " " + z) == x + y + " " + z
  {
  }

  lemma CollapseSpaceHead(s: string)
    requires |s| > 0 && IsSpace(s[0])
    ensures Collapse(s) == " " + Collapse(TrimStart(s))
  {
  }

  lemma CollapseRunStart(w: string, b: string)
    requires |w| > 0 && AllSpace(w)
    requires |b| > 0 ==> !IsSpace(b[0])
    ensures Collapse(w + b) == " " + Collapse(b)
  {
    assert (w + b)[0] == w[0];
    CollapseSpaceHead(w + b);
    TrimStartRun(w, b);
  }

  lemma CollapseWordHead(x: char, rest: string)
    requires !IsSpace(x)
    ensures Collapse([x] + rest) == [x] + Collapse(rest)
  {
    assert ([x] + rest)[0] == x && ([x] + rest)[1..] == rest;
  }

  lemma ConsSplit(a: string, w: string, b: string)
    requires |a| > 0
    ensures a == [a[0]] + a[1..] && a + w + b == [a[0]] + (a[1..] + w + b)
  {
  }

  lemma CollapseRunWord(a: string, w: string, b: string)
    requires |a| > 0 && !IsSpace(a[0])
    requires Collapse(a[1..] + w + b) == Collapse(a[1..]) + " " + Collapse(b)
    ensures Collapse(a + w + b) == Collapse(a) + " " + Collapse(b)
  {
    var t := a[1..];
    ConsSplit(a, w, b);
    CollapseWordHead(a[0], t + w + b);
    CollapseWordHead(a[0], t);
    Regroup([a[0]], Collapse(t), Collapse(b));
  }

  lemma Regroup3(x: string, y: string, z: string)
    requires |x| > 0
    ensures x + y + z == x + (y + z) && (x + y + z)[0] == x[0]
  {
  }

  lemma CollapseRunSpace(a: string, w: string, b: string)
    requires |a| > 0 && IsSpace(a[0]) && |TrimStart(a)| > 0
    requires Collapse(TrimStart(a) + w + b) == Collapse(TrimStart(a)) + " " + Collapse(b)
    ensures Collapse(a + w + b) == Collapse(a) + " " + Collapse(b)
  {
    var u := TrimStart(a);
    Regroup3(a, w, b);
    Regroup3(u, w, b);
    TrimStartAppend(a, w + b);
    CollapseSpaceHead(a + w + b);
    CollapseSpaceHead(a);
    Regroup(" ", Collapse(u), Collapse(b));
  }

  lemma CollapseRunEmpty(a: string, w: string, b: string)
    requires |a| == 0 && |w| > 0 && AllSpace(w)
    requires |b| > 0 ==> !IsSpace(b[0])
    ensures Collapse(a + w + b) == Collapse(a) + " " + Collapse(b)
  {
    DropEmpty(a, w, b);
    DropEmpty(Collapse(a), " ", Collapse(b));
    CollapseRunStart(w, b);
  }

  lemma DropEmpty(e: string, x: string, y: string)
    requires |e| == 0
    ensures e + x + y == x + y
  {
  }

  lemma TailKeepsLast(a: string)
    requires |a| > 0
    ensures |a[1..]| > 0 ==> a[1..][|a[1..]| - 1] == a[|a| - 1]
  {
  }

  lemma TrimStartKeepsLast(a: string)
    requires |a| > 0 && !IsSpace(a[|a| - 1])
    ensures |TrimStart(a)| > 0 && TrimStart(a)[|TrimStart(a)| - 1] == a[|a| - 1]
  {
    TrimStartDropsSpaces(a);
  }

  /** A whitespace run between two pieces of text becomes exactly one
      space: `\s+` -> " " keeps words apart and never glues them. */
  lemma {:induction false} CollapseRun(a: string, w: string, b: string)
    requires |w| > 0 && AllSpace(w)
    requires |a| > 0 ==> !IsSpace(a[|a| - 1])
    requires |b| > 0 ==> !IsSpace(b[0])
    ensures Collapse(a + w + b) == Collapse(a) + " " + Collapse(b)
    decreases |a|
  {
    if |a| == 0 {
      CollapseRunEmpty(a, w, b);
    } else if !IsSpace(a[0]) {
      TailKeepsLast(a);
      CollapseRun(a[1..], w, b);
      CollapseRunWord(a, w, b);
    } else {
      var u := TrimStart(a);
      TrimStartKeepsLast(a);
      CollapseRun(u, w, b);
      CollapseRunSpace(a, w, b);
    }
  }

  lemma CollapsedTail(s: string)
    requires Collapsed(s) && |s| > 0
    ensures Collapsed(s[1..])
  {
    var t := s[1..];
    forall i | 0 <= i < |t| && IsSpace(t[i])
      ensures t[i] == ' ' && (i + 1 < |t| ==> !IsSpace(t[i + 1]))
    {
      assert t[i] == s[i + 1];
      assert i + 1 < |t| ==> t[i + 1] == s[i + 2];
    }
  }

  /** A collapsed string that starts with whitespace starts with one plain
      space and nothing more. */
  lemma CollapsedHead(s: string)
    requires Collapsed(s) && |s| > 0 && IsSpace(s[0])
    ensures s[0] == ' ' && TrimStart(s) == s[1..]
  {
    var t := s[1..];
    if |t| > 0 {
      assert t[0] == s[1];
      assert !IsSpace(t[0]);
    }
    assert TrimStart(t) == t;
  }

  lemma {:induction false} CollapseKeepsCollapsed(s: string)
    requires Collapsed(s)
    ensures Collapse(s) == s
    decreases |s|
  {
    if |s| > 0 {
      var t := s[1..];
      CollapsedTail(s);
      CollapseKeepsCollapsed(t);
      assert s == [s[0]] + t;
      if IsSpace(s[0]) {
        CollapsedHead(s);
        assert Collapse(s) == " " + Collapse(t);
      } else {
        assert Collapse(s) == [s[0]] + Collapse(t);
      }
    }
  }

  /** What `clean_whitespace` does to the text of one cell: strip, then
      replace every whitespace run by one space. */
  function Normalize(s: string): (r: string)
    ensures NormalForm(r)
    ensures NonSpace(r) == NonSpace(s)
  {
    var t := Strip(s);
    CollapseIsCollapsed(t);
    CollapseKeepsNonSpace(t);
    if |t| > 0 then CollapseKeepsLast(t); Collapse(t) else Collapse(t)
  }

  /** A string already in normal form is left as it is; so `Normalize` is idempotent. */
  lemma NormalizeKeepsNormalForm(s: string)
    requires NormalForm(s)
    ensures Normalize(s) == s
  {
    CollapseKeepsCollapsed(s);
  }

  lemma StripAround(a: string, w: string, b: string)
    requires |a| > 0 && !IsSpace(a[|a| - 1])
    requires |b| > 0 && !IsSpace(b[0])
    ensures |TrimStart(a)| > 0 && TrimStart(a)[|TrimStart(a)| - 1] == a[|a| - 1]
    ensures |TrimEnd(b)| > 0 && TrimEnd(b)[0] == b[0]
    ensures Strip(a + w + b) == TrimStart(a) + w + TrimEnd(b)
    ensures Strip(a) == TrimStart(a) && Strip(b) == TrimEnd(b)
  {
    var u, v := TrimStart(a), TrimEnd(b);
    TrimStartDropsSpaces(a);
    TrimEndDropsSpaces(b);
    assert |u| > 0 && u[|u| - 1] == a[|a| - 1];
    assert |v| > 0 && v[0] == b[0];
    Regroup3(a, w, b);
    TrimStartAppend(a, w + b);
    Regroup3(u, w, b);
    TrimEndPrepend(u + w, b);
    assert TrimEnd(u) == u;
    assert TrimStart(b) == b;
  }

  /** Two words separated by whitespace stay two words, one space apart:
      whatever surrounds them, `Normalize` never glues them together. */
  lemma NormalizeKeepsWordBreak(a: string, w: string, b: string)
    requires |a| > 0 && !IsSpace(a[|a| - 1])
    requires |w| > 0 && AllSpace(w)
    requires |b| > 0 && !IsSpace(b[0])
    ensures Normalize(a + w + b) == Normalize(a) + " " + Normalize(b)
  {
    StripAround(a, w, b);
    CollapseRun(TrimStart(a), w, TrimEnd(b));
  }

  lemma NormalizeIdempotent(s: string)
    ensures Normalize(Normalize(s)) == Normalize(s)
  {
    NormalizeKeepsNormalForm(Normalize(s));
  }

  predicate IsUpper(c: char) { 'A' <= c <= 'Z' }
  predicate IsLower(c: char) { 'a' <= c <= 'z' }
  predicate IsLetter(c: char) { IsUpper(c) || IsLower(c) }

  lemma LetterIsNotSpace(c: char)
    requires IsLetter(c)
    ensures !IsSpace(c)
  {
    LettersAboveSpaces(c as int, 0);
  }

  function ToUpper(c: char): (r: char)
    ensures IsLetter(r) <==> IsLetter(c)
    ensures !IsLower(r)
    ensures !IsLetter(c) ==> r == c
  {
    if IsLower(c) then (c as int - 32) as char else c
  }

  function ToLower(c: char): (r: char)
    ensures IsLetter(r) <==> IsLetter(c)
    ensures !IsUpper(r)
    ensures !IsLetter(c) ==> r == c
  {
    if IsUpper(c) then (c as int + 32) as char else c
  }

  /** Python's `str.upper()`. */
  function Upper(s: string): (r: string)
    ensures |r| == |s|
    ensures forall i :: 0 <= i < |s| ==> r[i] == ToUpper(s[i])
  {
    seq(|s|, i requires 0 <= i < |s| => ToUpper(s[i]))
  }

  /** Python's `str.lower()`. */
  function Lower(s: string): (r: string)
    ensures |r| == |s|
    ensures forall i :: 0 <= i < |s| ==> r[i] == ToLower(s[i])
  {
    seq(|s|, i requires 0 <= i < |s| => ToLower(s[i]))
  }

  /** Python's `str.title()`: a letter is upper-cased when the character before
      it is not a letter, and lower-cased otherwise. */
  function Title(s: string): (r: string)
    ensures |r| == |s|
    ensures forall i :: 0 <= i < |s| ==> ToLower(r[i]) == ToLower(s[i])
    ensures forall i :: 0 <= i < |s| ==> (IsLetter(r[i]) <==> IsLetter(s[i]))
    ensures forall i :: 0 <= i < |s| && !IsLetter(s[i]) ==> r[i] == s[i]
    ensures forall i :: 0 <= i < |s| && IsLetter(r[i]) ==>
              (IsUpper(r[i]) <==> (i == 0 || !IsLetter(r[i - 1])))
  {
    var r := seq(|s|, i requires 0 <= i < |s| => TitleAt(s, i));
    assert forall i :: 0 <= i < |s| && IsLetter(r[i]) ==> (IsUpper(r[i]) <==> (i == 0 || !IsLetter(r[i - 1]))) by {
      forall i | 0 <= i < |s| && IsLetter(r[i]) ensures IsUpper(r[i]) <==> (i == 0 || !IsLetter(r[i - 1])) {
        if i > 0 {
          assert IsLetter(r[i - 1]) <==> IsLetter(s[i - 1]);
        }
      }
    }
    r
  }

  /** Character `i` of `str.title()`: upper-cased at the start of a word,
      lower-cased inside one. */
  function TitleAt(s: string, i: nat): (c: char)
    requires i < |s|
    ensures ToLower(c) == ToLower(s[i])
    ensures IsLetter(c) <==> IsLetter(s[i])
    ensures !IsLetter(s[i]) ==> c == s[i]
    ensures IsLetter(c) ==> (IsUpper(c) <==> (i == 0 || !IsLetter(s[i - 1])))
  {
    if i > 0 && IsLetter(s[i - 1]) then ToLower(s[i]) else ToUpper(s[i])
  }

  /** A string is title-cased when `Title` leaves it as it is. */
  predicate IsTitled(s: string) { Title(s) == s }

  lemma TitleIdempotent(s: string)
    ensures IsTitled(Title(s))
  {
    var r := Title(s);
    assert forall i :: 0 <= i < |r| ==> Title(r)[i] == r[i];
  }

  /** Title-casing changes no whitespace character and turns none into one. */
  lemma TitleKeepsSpaces(s: string)
    ensures forall i :: 0 <= i < |s| ==> (IsSpace(Title(s)[i]) <==> IsSpace(s[i]))
    ensures forall i :: 0 <= i < |s| && IsSpace(s[i]) ==> Title(s)[i] == s[i]
  {
    var r := Title(s);
    forall i | 0 <= i < |s|
      ensures (IsSpace(r[i]) <==> IsSpace(s[i])) && (IsSpace(s[i]) ==> r[i] == s[i])
    {
      if IsLetter(s[i]) {
        LetterIsNotSpace(s[i]);
        LetterIsNotSpace(r[i]);
      }
    }
  }

  /** So title-casing keeps the normal form. */
  lemma TitleKeepsNormalForm(s: string)
    requires NormalForm(s)
    ensures NormalForm(Title(s))
  {
    TitleKeepsSpaces(s);
  }

  /** What the title-casing step relies on: `Title` yields a title-cased
      string equal to its input up to case, with the same whitespace. */
  lemma TitleFacts(u: string)
    ensures IsTitled(Title(u))
    ensures Lower(Title(u)) == Lower(u)
    ensures |u| > 0 && !IsSpace(u[0]) && !IsSpace(u[|u| - 1]) ==>
              !IsSpace(Title(u)[0]) && !IsSpace(Title(u)[|u| - 1])
    ensures NormalForm(u) ==> NormalForm(Title(u))
  {
    TitleIdempotent(u);
    TitleKeepsSpaces(u);
    assert Lower(Title(u)) == Lower(u);
  }

  /** A string of letters only is in normal form. */
  lemma LettersAreNormal(s: string)
    requires forall i :: 0 <= i < |s| ==> IsLetter(s[i])
    ensures NormalForm(s)
  {
    forall i | 0 <= i < |s| ensures !IsSpace(s[i]) { LetterIsNotSpace(s[i]); }
  }

  lemma NanIsNormal()
    ensures Normalize("nan") == "nan"
  {
    var s := "nan";
    forall i | 0 <= i < |s| ensures IsLetter(s[i]) {
      if i == 0 {} else if i == 1 {} else {}
    }
    LettersAreNormal(s);
    NormalizeKeepsNormalForm(s);
  }

  /** Code-point (lexicographic) order on strings, as Python compares them. */
  predicate LexLess(a: string, b: string)
    decreases |a|
  {
    |b| > 0 && (|a| == 0 || a[0] < b[0] || (a[0] == b[0] && LexLess(a[1..], b[1..])))
  }

  lemma {:induction false} LexIrreflexive(a: string)
    ensures !LexLess(a, a)
    decreases |a|
  {
    if |a| > 0 { LexIrreflexive(a[1..]); }
  }

  lemma {:induction false} LexTransitive(a: string, b: string, c: string)
    requires LexLess(a, b) && LexLess(b, c)
    ensures LexLess(a, c)
    decreases |a|
  {
    if |a| > 0 && a[0] == b[0] && b[0] == c[0] {
      LexTransitive(a[1..], b[1..], c[1..]);
    }
  }

  lemma {:induction false} LexTotal(a: string, b: string)
    requires a != b
    ensures LexLess(a, b) || LexLess(b, a)
    decreases |a|
  {
    if |a| > 0 && |b| > 0 && a[0] == b[0] {
      assert a == [a[0]] + a[1..] && b == [b[0]] + b[1..];
      LexTotal(a[1..], b[1..]);
    }
  }

}
