// The single-quote escaping the pipeline applies to every path it places in
// an ffprobe or ffmpeg command line, and the reading a POSIX shell gives to
// the resulting word (section 2.2 "Quoting" of the POSIX.1-2017 Shell
// Command Language: 2.2.1 Escape Character, 2.2.2 Single-Quotes).

module ShellQuote {
  import opened Wrappers

  /** What `replace(/'/g, "'\\''")` makes of one character: a quote closes
      the quoted run, is given as the escaped `\'`, and reopens it. */
  function EscapeChar(c: char): string
  {
    if c == '\'' then "'\\''" else [c]
  }

  /** `p.replace(/'/g, "'\\''")` */
  function Escape(s: string): (r: string)
    ensures |r| >= |s|
    ensures forall c :: c in s ==> c in r
    ensures forall c :: c in r ==> c in s || c == '\\'
  {
    if |s| == 0 then "" else EscapeChar(s[0]) + Escape(s[1..])
  }

  /** The word the command string carries for a path: `'${escaped}'`. */
  function Quote(s: string): (r: string)
    ensures |r| >= |s| + 2 && r[0] == '\'' && r[|r| - 1] == '\''
  {
    "'" + Escape(s) + "'"
  }

  /** Characters the shell acts on when they appear outside quotes: the
      operators, expansion and quoting characters, blanks, and the
      pattern/comment/tilde characters of section 2.2. */
  predicate IsSpecial(c: char)
  {
    c in "|&;<>()$`\\\"' \t\n*?[#~=%"
  }

  datatype Mode = Unquoted | InSingle

  function Prepend(c: char, r: Option<string>): Option<string>
  {
    if r.Some? then Some([c] + r.value) else None
  }

  /** How a shell reads one word: inside single quotes every character is
      literal up to the next quote; outside, a backslash makes the next
      character literal (a backslash-newline disappears) and a quote opens a
      quoted run. `None` when the word is not a single literal word: an
      unterminated quote, a trailing backslash, or an unquoted special
      character that the shell would split on, expand or treat as an
      operator. */
  function Scan(w: string, mode: Mode): (r: Option<string>)
    ensures r.Some? ==> |r.value| <= |w| && forall c :: c in r.value ==> c in w
    decreases |w|
  {
    if |w| == 0 then (if mode == Unquoted then Some("") else None)
    else if mode == InSingle then
      if w[0] == '\'' then Scan(w[1..], Unquoted) else Prepend(w[0], Scan(w[1..], InSingle))
    else if w[0] == '\'' then Scan(w[1..], InSingle)
    else if w[0] == '\\' then
      if |w| < 2 then None
      else if w[1] == '\n' then Scan(w[2..], Unquoted)
      else Prepend(w[1], Scan(w[2..], Unquoted))
    else if IsSpecial(w[0]) then None
    else Prepend(w[0], Scan(w[1..], Unquoted))
  }

  /** The value a shell gives to a word, if it is one literal word. */
  function Unquote(w: string): (r: Option<string>)
    ensures r.Some? ==> |r.value| <= |w| && forall c :: c in r.value ==> c in w
  {
    Scan(w, Unquoted)
  }

  lemma {:induction false} EscapeAppend(a: string, b: string)
    ensures Escape(a + b) == Escape(a) + Escape(b)
  {
    if |a| > 0 {
      assert (a + b)[1..] == a[1..] + b;
      EscapeAppend(a[1..], b);
    } else {
      assert a + b == b;
    }
  }

  /** A path without a quote is left exactly as it is. */
  lemma {:induction false} EscapeNoQuote(s: string)
    requires '\'' !in s
    ensures Escape(s) == s
  {
    if |s| > 0 {
      EscapeNoQuote(s[1..]);
      assert s == [s[0]] + s[1..];
    }
  }

  /** Each quote grows into four characters and nothing else grows. */
  lemma {:induction false} EscapeLength(s: string)
    ensures |Escape(s)| == |s| + 3 * QuoteCount(s)
  {
    if |s| > 0 {
      EscapeLength(s[1..]);
    }
  }

  function QuoteCount(s: string): nat
  {
    if |s| == 0 then 0 else (if s[0] == '\'' then 1 else 0) + QuoteCount(s[1..])
  }

  /** Inside an open quoted run, an escaped path followed by the closing
      quote reads back as the path. */
  lemma {:induction false} ScanEscaped(s: string)
    ensures Scan(Escape(s) + "'", InSingle) == Some(s)
  {
    if |s| == 0 {
      assert Escape(s) + "'" == "'";
      assert Scan("", Unquoted) == Some("");
    } else {
      var rest := Escape(s[1..]) + "'";
      ScanEscaped(s[1..]);
      var w := Escape(s) + "'";
      assert w == EscapeChar(s[0]) + rest;
      if s[0] == '\'' {
        ScanEscapedQuote(rest);
      } else {
        assert w[0] == s[0] && w[1..] == rest;
      }
      assert [s[0]] + s[1..] == s;
    }
  }

  /** The four characters of an escaped quote, read inside a quoted run,
      give one literal quote and leave the run open. */
  lemma ScanEscapedQuote(rest: string)
    ensures Scan("'\\''" + rest, InSingle) == Prepend('\'', Scan(rest, InSingle))
  {
    var w := "'\\''" + rest;
    assert w[0] == '\'';
    var u := w[1..];
    assert u[0] == '\\' && u[1] == '\'' && |u| >= 2;
    assert Scan(u, Unquoted) == Prepend('\'', Scan(u[2..], Unquoted));
    var v := u[2..];
    assert v[0] == '\'' && v[1..] == rest;
  }

  /** The quoted word a command carries for a path is one literal word
      whose value is the path, whatever characters the path holds. */
  lemma QuoteRoundTrip(s: string)
    ensures Unquote(Quote(s)) == Some(s)
  {
    var w := Quote(s);
    assert w[1..] == Escape(s) + "'";
    ScanEscaped(s);
  }
}
