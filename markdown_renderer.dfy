// The body transform of `MarkdownRenderer`: content that looks like HTML is
// shown as it is, plain text gets a `<br>` for every line break.
module MarkdownRenderer {

  /** `s.replace(/\n/g, '<br>')` */
  function BreakLines(s: string): string {
    if s == [] then []
    else if s[0] == '\n' then "<br>" + BreakLines(s[1..])
    else [s[0]] + BreakLines(s[1..])
  }

  /** `processedContent`: empty stays empty, HTML is kept, plain text has its line breaks turned into `<br>`. */
  function ProcessedContent(content: string): (r: string)
    ensures content == [] ==> r == []
    ensures '<' in content && '>' in content ==> r == content
    ensures content != [] && !('<' in content && '>' in content) ==> r == BreakLines(content)
  {
    if content == [] then []
    else if '<' in content && '>' in content then content
    else BreakLines(content)
  }

  /** Each line break grows by three characters; nothing else changes length. */
  lemma {:induction false} BreakLinesLength(s: string)
    ensures |BreakLines(s)| == |s| + 3 * multiset(s)['\n']
  {
    if s != [] {
      BreakLinesLength(s[1..]);
      assert s == [s[0]] + s[1..];
      assert multiset(s) == multiset{s[0]} + multiset(s[1..]);
    }
  }

  /** No line break survives. */
  lemma {:induction false} BreakLinesRemovesNewlines(s: string)
    ensures '\n' !in BreakLines(s)
  {
    if s != [] {
      BreakLinesRemovesNewlines(s[1..]);
    }
  }

  /** Text without a line break is returned as it is. */
  lemma {:induction false} BreakLinesWithoutNewline(s: string)
    requires '\n' !in s
    ensures BreakLines(s) == s
  {
    if s != [] {
      assert '\n' !in s[1..] by {
        assert forall c :: c in s[1..] ==> c in s;
      }
      BreakLinesWithoutNewline(s[1..]);
    }
  }

  /** The result's first character: `<` for a line break, the character itself otherwise. */
  lemma BreakLinesHead(s: string)
    requires s != []
    ensures BreakLines(s) != [] && BreakLines(s)[0] == (if s[0] == '\n' then '<' else s[0])
  {
  }

  /** `<br>` back to a line break, scanning from the left. */
  function UnbreakLines(r: string): string {
    if r == [] then []
    else if |r| >= 4 && r[..4] == "<br>" then "\n" + UnbreakLines(r[4..])
    else [r[0]] + UnbreakLines(r[1..])
  }

  /**
   * On text without `>` (every plain text that reaches the replacement lacks
   * `<` or `>`), the replacement loses nothing: the inserted `<br>` tags are
   * the only `<br>` in the result.
   */
  lemma {:induction false} BreakLinesRoundTrip(s: string)
    requires '>' !in s
    ensures UnbreakLines(BreakLines(s)) == s
  {
    if s != [] {
      var rest := BreakLines(s[1..]);
      assert '>' !in s[1..] by {
        assert forall c :: c in s[1..] ==> c in s;
      }
      BreakLinesRoundTrip(s[1..]);
      if s[0] == '\n' {
        assert ("<br>" + rest)[..4] == "<br>" && ("<br>" + rest)[4..] == rest;
      } else {
        var r := [s[0]] + rest;
        assert r[1..] == rest;
        if |r| >= 4 && r[..4] == "<br>" {
          NoTagAfterB(s[1..]);
          assert false;
        }
      }
    }
  }

  /** `BreakLines(t)` never starts with `br>` when `t` has no `>`. */
  lemma NoTagAfterB(t: string)
    requires '>' !in t
    ensures |BreakLines(t)| < 3 || BreakLines(t)[..3] != "br>"
  {
    if t != [] {
      BreakLinesHead(t);
      if t[0] == 'b' && |t| > 1 {
        var r1 := BreakLines(t[1..]);
        assert BreakLines(t) == "b" + r1;
        BreakLinesHead(t[1..]);
        if t[1] == 'r' && |t| > 2 {
          var u := t[2..];
          assert t[1..][1..] == u;
          assert r1 == "r" + BreakLines(u);
          BreakLinesHead(u);
          assert t[2] in t;
          assert BreakLines(t)[2] == BreakLines(u)[0];
        } else if t[1] == 'r' {
          assert t[1..][1..] == [];
        }
      }
    }
  }

  /** Whatever does not look like HTML comes out with no line break left. */
  lemma ProcessedHasNoNewlineUnlessHtml(content: string)
    ensures !('<' in content && '>' in content) ==> '\n' !in ProcessedContent(content)
  {
    if content != [] && !('<' in content && '>' in content) {
      BreakLinesRemovesNewlines(content);
    }
  }

  /**
   * Plain text that reaches the replacement can always be read back: it lacks
   * `<` or `>`, and either way the inserted tags are the only `<br>` in it.
   */
  lemma ProcessedPlainRoundTrip(content: string)
    requires !('<' in content && '>' in content)
    ensures UnbreakLines(ProcessedContent(content)) == content
  {
    if content != [] {
      if '>' !in content {
        BreakLinesRoundTrip(content);
      } else {
        BreakLinesWithoutLt(content);
      }
    }
  }

  /** Without `<` in the text, the only `<` of the result open the inserted tags. */
  lemma {:induction false} BreakLinesWithoutLt(s: string)
    requires '<' !in s
    ensures UnbreakLines(BreakLines(s)) == s
  {
    if s != [] {
      var rest := BreakLines(s[1..]);
      assert '<' !in s[1..] by {
        assert forall c :: c in s[1..] ==> c in s;
      }
      BreakLinesWithoutLt(s[1..]);
      if s[0] == '\n' {
        assert ("<br>" + rest)[..4] == "<br>" && ("<br>" + rest)[4..] == rest;
      } else {
        var r := [s[0]] + rest;
        assert r[0] == s[0] && r[1..] == rest;
      }
    }
  }
}
