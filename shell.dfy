/**
 * src/utils/shell.ts: the `cd` line printed for the wrapping shell function to
 * `eval`, and the quote removal a POSIX shell applies to it (sections 2.2.1
 * and 2.2.2 of the Shell Command Language).
 */
module Shell {
  import opened Wrappers

  /** `path.replace(/'/g, "'\\''")`: each `'` becomes `'\''` (close the quote,
      an escaped quote, reopen the quote). */
  function Escape(path: string): string {
    if path == [] then []
    else (if path[0] == '\'' then "'\\''" else [path[0]]) + Escape(path[1..])
  }

  /** The path as one single-quoted shell word. */
  function Quote(path: string): string {
    "'" + Escape(path) + "'"
  }

  /** The line `outputCdCommand(path)` writes to standard output. */
  function CdLine(path: string): string {
    "cd " + Quote(path)
  }

  /** Each `'` costs three more characters; nothing else changes length. */
  lemma {:induction false} EscapeLength(path: string)
    ensures |Escape(path)| == |path| + 3 * multiset(path)['\'']
  {
    if path != [] {
      assert path == [path[0]] + path[1..];
      assert multiset(path) == multiset([path[0]]) + multiset(path[1..]);
      EscapeLength(path[1..]);
    }
  }

  /** A path without `'` appears verbatim between the quotes. */
  lemma {:induction false} EscapeWithoutQuotes(path: string)
    requires '\'' !in path
    ensures Escape(path) == path
    ensures CdLine(path) == "cd '" + path + "'"
  {
    if path != [] {
      assert path[0] != '\'';
      EscapeWithoutQuotes(path[1..]);
    }
  }

  /** Characters a POSIX shell acts on when they are neither quoted nor escaped
      (section 2.2): operators, blanks, expansion and pattern characters. */
  predicate IsSpecial(c: char) {
    c in "|&;<>()$`\\\"' \t\n*?[#~=%"
  }

  function Prepend(c: char, rest: Option<string>): Option<string> {
    if rest.Some? then Some([c] + rest.value) else None
  }

  /** The value of the shell word `w` after quote removal, when `w` is a single
      word that no expansion changes. Inside single quotes every character
      stands for itself up to the closing quote (2.2.2); outside them a
      backslash makes the next character literal and a backslash-newline
      disappears (2.2.1). The result is `None` when a quote is left open, a
      backslash ends the word, or an unquoted, unescaped special character
      could split the word or be expanded. `quoted` says whether `w` starts
      inside single quotes. */
  function Unquote(w: string, quoted: bool): Option<string>
    decreases |w|
  {
    if w == [] then (if quoted then None else Some([]))
    else if quoted then
      if w[0] == '\'' then Unquote(w[1..], false) else Prepend(w[0], Unquote(w[1..], true))
    else if w[0] == '\'' then Unquote(w[1..], true)
    else if w[0] == '\\' then
      if |w| == 1 then None
      else if w[1] == '\n' then Unquote(w[2..], false)
      else Prepend(w[1], Unquote(w[2..], false))
    else if IsSpecial(w[0]) then None
    else Prepend(w[0], Unquote(w[1..], false))
  }

  /** Inside an open quote, the escaped text followed by the closing quote reads
      back as the original text. */
  lemma {:induction false} UnquoteEscaped(path: string)
    ensures Unquote(Escape(path) + "'", true) == Some(path)
  {
    if path == [] {
      assert Escape(path) + "'" == "'";
    } else {
      var rest := Escape(path[1..]) + "'";
      UnquoteEscaped(path[1..]);
      if path[0] == '\'' {
        assert Escape(path) + "'" == "'\\''" + rest;
        UnquoteEscapedQuote(rest, path[1..]);
      } else {
        assert Escape(path) + "'" == [path[0]] + rest;
        UnquoteLiteral(path[0], rest, path[1..]);
      }
      assert [path[0]] + path[1..] == path;
    }
  }

  /** Inside quotes, `'\''` stands for one `'` and leaves the quote open. */
  lemma UnquoteEscapedQuote(rest: string, value: string)
    requires Unquote(rest, true) == Some(value)
    ensures Unquote("'\\''" + rest, true) == Some("'" + value)
  {
    var w := "'\\''" + rest;
    var w1 := w[1..];
    assert w1 == "\\''" + rest;
    var w2 := w1[2..];
    assert w2 == "'" + rest;
    assert w2[1..] == rest;
    assert Unquote(w2, false) == Some(value);
    assert Unquote(w1, false) == Prepend('\'', Some(value));
    assert Unquote(w, true) == Unquote(w1, false);
  }

  /** Inside quotes, any character but `'` stands for itself. */
  lemma UnquoteLiteral(c: char, rest: string, value: string)
    requires c != '\'' && Unquote(rest, true) == Some(value)
    ensures Unquote([c] + rest, true) == Some([c] + value)
  {
    assert ([c] + rest)[1..] == rest;
  }

  /** The printed line is `cd ` and one shell word whose value after POSIX quote
      removal is exactly the path, whatever characters the path holds. */
  lemma CdLineRoundTrip(path: string)
    ensures CdLine(path)[..3] == "cd "
    ensures Unquote(CdLine(path)[3..], false) == Some(path)
  {
    var w := Quote(path);
    assert CdLine(path)[3..] == w;
    assert w[1..] == Escape(path) + "'";
    UnquoteEscaped(path);
  }
}
