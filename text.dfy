/**
 * The two Ruby string operations `prompt` applies to every line it reads:
 * `String#chomp` (drop one trailing line terminator) and `String#strip`
 * (drop leading and trailing whitespace). What each promises is stated by
 * the lemma that follows it.
 */
module Text {

  /**
   * Ruby's whitespace for `strip`: NUL, and tab, line feed, vertical tab,
   * form feed, carriage return (the range '\t'..'\r'), and space.
   */
  predicate IsSpace(c: char)
  {
    c == '\0' || ('\t' <= c <= '\r') || c == ' '
  }

  /** Every character of `s` is whitespace (the empty string included). */
  predicate IsBlank(s: string)
  {
    forall i :: 0 <= i < |s| ==> IsSpace(s[i])
  }

  /** `chomp` without an argument. */
  function Chomp(s: string): string
  {
    if |s| >= 2 && s[|s| - 2..] == "\r\n" then s[..|s| - 2]
    else if |s| >= 1 && (s[|s| - 1] == '\n' || s[|s| - 1] == '\r') then s[..|s| - 1]
    else s
  }

  /**
   * `chomp` removes one trailing "\r\n", "\n" or "\r": a prefix of at most
   * two characters less, the dropped ones line-terminator characters; the
   * string itself exactly when it does not end in a line terminator, and two
   * characters less exactly when it ends in "\r\n".
   */
  lemma ChompSpec(s: string)
    ensures var r := Chomp(s);
            && r <= s && |s| - |r| <= 2
            && (forall i :: |r| <= i < |s| ==> s[i] == '\r' || s[i] == '\n')
            && (r == s <==> s == [] || (s[|s| - 1] != '\n' && s[|s| - 1] != '\r'))
            && (|s| - |r| == 2 <==> |s| >= 2 && s[|s| - 2..] == "\r\n")
  {
  }

  /** A line as `puts` writes it and `gets` reads it back comes out of `chomp` unchanged. */
  lemma ChompLine(s: string)
    requires s == [] || s[|s| - 1] != '\r'
    ensures Chomp(s + "\n") == s
  {
    assert (s + "\n")[..|s|] == s;
  }

  /** `rstrip`. */
  function RStrip(s: string): string
    decreases |s|
  {
    if |s| > 0 && IsSpace(s[|s| - 1]) then RStrip(s[..|s| - 1]) else s
  }

  /** `rstrip` keeps the longest prefix that does not end in whitespace. */
  lemma {:induction false} RStripSpec(s: string)
    ensures var r := RStrip(s);
            && r <= s
            && (r == [] || !IsSpace(r[|r| - 1]))
            && forall i :: |r| <= i < |s| ==> IsSpace(s[i])
    decreases |s|
  {
    if |s| > 0 && IsSpace(s[|s| - 1]) {
      RStripSpec(s[..|s| - 1]);
    }
  }

  /** `lstrip`. */
  function LStrip(s: string): string
  {
    if |s| > 0 && IsSpace(s[0]) then LStrip(s[1..]) else s
  }

  /** `lstrip` keeps the longest suffix that does not start with whitespace. */
  lemma {:induction false} LStripSpec(s: string)
    ensures var r := LStrip(s);
            && |r| <= |s| && r == s[|s| - |r|..]
            && (r == [] || !IsSpace(r[0]))
            && forall i :: 0 <= i < |s| - |r| ==> IsSpace(s[i])
  {
    if |s| > 0 && IsSpace(s[0]) {
      LStripSpec(s[1..]);
      var r := LStrip(s[1..]);
      assert s[1..][|s| - 1 - |r|..] == s[|s| - |r|..];
      forall i | 0 <= i < |s| - |r| ensures IsSpace(s[i]) {
        if i > 0 { assert s[i] == s[1..][i - 1]; }
      }
    }
  }

  /** `strip`: `lstrip` after `rstrip`. */
  function Strip(s: string): string
  {
    LStrip(RStrip(s))
  }

  /**
   * `strip` returns the slice of `s` between its leading and its trailing
   * whitespace: it neither starts nor ends with whitespace, only whitespace
   * lies around it, and it is empty exactly when `s` is blank.
   */
  lemma StripSpec(s: string)
    ensures var r := Strip(s);
            && (r == [] || (!IsSpace(r[0]) && !IsSpace(r[|r| - 1])))
            && (exists k :: 0 <= k <= |s| - |r| && r == s[k..k + |r|]
                            && IsBlank(s[..k]) && IsBlank(s[k + |r|..]))
            && (r == [] <==> IsBlank(s))
  {
    var t := RStrip(s);
    var r := LStrip(t);
    RStripSpec(s);
    LStripSpec(t);
    StripSlice(s, t, r);
  }

  /** The facts of StripSpec, from those of RStripSpec and LStripSpec. */
  lemma StripSlice(s: string, t: string, r: string)
    requires t <= s && forall i :: |t| <= i < |s| ==> IsSpace(s[i])
    requires |r| <= |t| && r == t[|t| - |r|..] && forall i :: 0 <= i < |t| - |r| ==> IsSpace(t[i])
    requires r == [] || !IsSpace(r[0])
    requires t == [] || !IsSpace(t[|t| - 1])
    ensures r == [] || (!IsSpace(r[0]) && !IsSpace(r[|r| - 1]))
    ensures var k := |t| - |r|;
            0 <= k <= |s| - |r| && r == s[k..k + |r|] && IsBlank(s[..k]) && IsBlank(s[k + |r|..])
    ensures r == [] <==> IsBlank(s)
  {
    var k := |t| - |r|;
    var head, tail := s[..k], s[k + |r|..];
    assert head == t[..k];
    assert r == s[k..k + |r|];
    assert IsBlank(tail) by {
      forall i | 0 <= i < |tail| ensures IsSpace(tail[i]) {
        assert tail[i] == s[|t| + i];
      }
    }
    assert s == head + r + tail;
    BlankConcat(head + r, tail);
    BlankConcat(head, r);
    if r != [] {
      assert r[|r| - 1] == t[|t| - 1];
    }
  }

  /** A concatenation is blank exactly when both parts are. */
  lemma BlankConcat(a: string, b: string)
    ensures IsBlank(a + b) <==> IsBlank(a) && IsBlank(b)
  {
    var ab := a + b;
    if IsBlank(ab) {
      forall i | 0 <= i < |a| ensures IsSpace(a[i]) {
        assert a[i] == ab[i];
      }
      forall i | 0 <= i < |b| ensures IsSpace(b[i]) {
        assert b[i] == ab[|a| + i];
      }
    }
    if IsBlank(a) && IsBlank(b) {
      forall i | 0 <= i < |ab| ensures IsSpace(ab[i]) {
        if i < |a| { assert ab[i] == a[i]; } else { assert ab[i] == b[i - |a|]; }
      }
    }
  }

  /** Stripping a line already removes whatever `chomp` would: `chomp.strip` is `strip`. */
  lemma StripAfterChomp(s: string)
    ensures Strip(Chomp(s)) == Strip(s)
  {
    var c := Chomp(s);
    ChompSpec(s);
    if |s| - |c| == 1 {
      assert s[..|s| - 1] == c;
      assert IsSpace(s[|s| - 1]);
    } else if |s| - |c| == 2 {
      var s1 := s[..|s| - 1];
      assert s1[..|s1| - 1] == c;
      assert IsSpace(s[|s| - 1]) && IsSpace(s1[|s1| - 1]);
      assert RStrip(s) == RStrip(s1) == RStrip(c);
    }
  }

}
