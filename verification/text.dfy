/**
  The two JavaScript string built-ins the application relies on:
  `String.prototype.trim` (used on every label the user types) and
  `replace(/\s+/g, '_')` (used to derive the export file name). Both use the
  ECMAScript notion of white space: the WhiteSpace and LineTerminator code
  points, with every Unicode "space separator" included.
 */
module Text {
  import opened Lists

  /** ECMAScript white space (`\s` in a regular expression, what `trim` strips). */
  predicate IsWhitespace(c: char) {
    var n := c as int;
    || n == 0x09 || n == 0x0A || n == 0x0B || n == 0x0C || n == 0x0D
    || n == 0x20 || n == 0xA0 || n == 0x1680
    || (0x2000 <= n <= 0x200A)
    || n == 0x2028 || n == 0x2029 || n == 0x202F || n == 0x205F
    || n == 0x3000 || n == 0xFEFF
  }

  predicate AllWhitespace(s: string) {
    forall i :: 0 <= i < |s| ==> IsWhitespace(s[i])
  }

  predicate NoWhitespace(s: string) {
    forall i :: 0 <= i < |s| ==> !IsWhitespace(s[i])
  }

  /** `s` without its leading white space. */
  function TrimStart(s: string): (r: string)
    ensures |r| <= |s| && r == s[|s| - |r|..]
    ensures AllWhitespace(s[..|s| - |r|])
    ensures r == [] || !IsWhitespace(r[0])
  {
    if |s| > 0 && IsWhitespace(s[0]) then
      var r := TrimStart(s[1..]);
      assert s[..|s| - |r|] == [s[0]] + s[1..][..|s[1..]| - |r|];
      r
    else s
  }

  /** `s` without its trailing white space. */
  function TrimEnd(s: string): (r: string)
    ensures |r| <= |s| && r == s[..|r|]
    ensures AllWhitespace(s[|r|..])
    ensures r == [] || !IsWhitespace(r[|r| - 1])
  {
    if |s| > 0 && IsWhitespace(s[|s| - 1]) then
      var r := TrimEnd(s[..|s| - 1]);
      assert s[|r|..] == s[..|s| - 1][|r|..] + [s[|s| - 1]];
      r
    else s
  }

  /** JavaScript `s.trim()`. */
  function Trim(s: string): (r: string)
    ensures |r| <= |s|
    ensures r == [] || (!IsWhitespace(r[0]) && !IsWhitespace(r[|r| - 1]))
    ensures r == [] <==> AllWhitespace(s)
  {
    var t := TrimStart(s);
    var r := TrimEnd(t);
    assert r == [] ==> AllWhitespace(s) by {
      if r == [] {
        assert t == [] by {
          assert t[|r|..] == t;
        }
        assert s[..|s| - |t|] == s;
      }
    }
    r
  }

  /**
    Trim removes exactly a white-space prefix and a white-space suffix:
    the result is the slice `s[a..b]` and everything outside it is white space.
   */
  lemma TrimIsSlice(s: string) returns (a: nat, b: nat)
    ensures a <= b <= |s| && Trim(s) == s[a..b]
    ensures AllWhitespace(s[..a]) && AllWhitespace(s[b..])
  {
    var t := TrimStart(s);
    var r := TrimEnd(t);
    a := |s| - |t|;
    if r == [] {
      b := a;
      assert t == [] by {
        assert t[|r|..] == t;
      }
    } else {
      b := a + |r|;
      assert s[a..b] == t[..|r|];
      assert s[b..] == t[|r|..];
    }
  }

  /** Trimming a trimmed string changes nothing. */
  lemma TrimIdempotent(s: string)
    ensures Trim(Trim(s)) == Trim(s)
  {
    var r := Trim(s);
    if r != [] {
      assert TrimStart(r) == r;
      assert TrimEnd(r) == r;
    }
  }

  /** JavaScript `s.replace(/\s+/g, '_')`: every maximal run of white space becomes one `_`. */
  function CollapseWhitespace(s: string): (r: string)
    ensures NoWhitespace(r)
    ensures |r| <= |s|
    decreases |s|
  {
    if |s| == 0 then []
    else if IsWhitespace(s[0]) then
      var t := TrimStart(s);
      assert |t| < |s| by {
        assert t == [] || t[0] != s[0];
      }
      "_" + CollapseWhitespace(t)
    else [s[0]] + CollapseWhitespace(s[1..])
  }

  /** A string without white space is left as it is. */
  lemma {:induction false} CollapseIdentity(s: string)
    ensures CollapseWhitespace(s) == s <==> NoWhitespace(s)
  {
    if |s| > 0 && !IsWhitespace(s[0]) {
      CollapseIdentity(s[1..]);
      assert NoWhitespace(s) <==> NoWhitespace(s[1..]) by {
        assert forall i :: 1 <= i < |s| ==> s[i] == s[1..][i - 1];
      }
    }
  }

  /** Replacing whitespace runs twice gives the same name as doing it once. */
  lemma CollapseIdempotent(s: string)
    ensures CollapseWhitespace(CollapseWhitespace(s)) == CollapseWhitespace(s)
  {
    CollapseIdentity(CollapseWhitespace(s));
  }

  /** A maximal run `w` of white space followed by `t` becomes a single `_`. */
  lemma {:induction false} CollapseRun(w: string, t: string)
    requires |w| > 0 && AllWhitespace(w)
    requires t == [] || !IsWhitespace(t[0])
    ensures CollapseWhitespace(w + t) == "_" + CollapseWhitespace(t)
  {
    TrimStartOfRun(w, t);
  }

  /** A character other than white space is copied through as it is. */
  lemma {:induction false} CollapseCopies(c: char, t: string)
    requires !IsWhitespace(c)
    ensures CollapseWhitespace([c] + t) == [c] + CollapseWhitespace(t)
  {
    assert ([c] + t)[1..] == t;
  }

  lemma {:induction false} TrimStartOfRun(w: string, t: string)
    requires AllWhitespace(w)
    requires t == [] || !IsWhitespace(t[0])
    ensures TrimStart(w + t) == t
  {
    if |w| > 0 {
      assert (w + t)[1..] == w[1..] + t;
      TrimStartOfRun(w[1..], t);
    } else {
      assert w + t == t;
    }
  }

  predicate IsUnderscore(c: char) {
    c == '_'
  }

  /** A character the collapse copies through unchanged and never inserts. */
  predicate IsKeptChar(c: char) {
    !IsWhitespace(c) && !IsUnderscore(c)
  }

  predicate NotUnderscore(c: char) {
    !IsUnderscore(c)
  }

  /**
    Apart from the `_` it inserts, the collapse keeps every non-white-space
    character of `s`, in order.
   */
  lemma {:induction false} CollapseKeepsOtherChars(s: string)
    ensures Filter(CollapseWhitespace(s), NotUnderscore) == Filter(s, IsKeptChar)
    decreases |s|
  {
    if |s| == 0 {
    } else if IsWhitespace(s[0]) {
      var t := TrimStart(s);
      var w := s[..|s| - |t|];
      assert s == w + t;
      FilterConcat(w, t, IsKeptChar);
      FilterNoneKept(w);
      assert "_" + CollapseWhitespace(t) == ['_'] + CollapseWhitespace(t);
      FilterConcat(['_'], CollapseWhitespace(t), NotUnderscore);
      assert |t| < |s| by {
        assert t == [] || t[0] != s[0];
      }
      CollapseKeepsOtherChars(t);
    } else {
      assert s == [s[0]] + s[1..];
      FilterConcat([s[0]], s[1..], IsKeptChar);
      FilterConcat([s[0]], CollapseWhitespace(s[1..]), NotUnderscore);
      CollapseKeepsOtherChars(s[1..]);
    }
  }

  lemma {:induction false} FilterNoneKept(w: string)
    requires AllWhitespace(w)
    ensures Filter(w, IsKeptChar) == []
  {
    if |w| > 0 {
      FilterNoneKept(w[1..]);
    }
  }
}
