/**
  How a POSIX shell turns a simple command line into the argument vector of the
  program it starts, for the part of the shell syntax the ffmpeg command line uses:
  words are separated by spaces, and a double-quoted stretch belongs to the current
  word literally. Characters whose meaning this model does not capture (escapes,
  parameter and command substitution, single quotes, operators, globbing, comments)
  make `Words` answer `None` instead of guessing.
 */
module Shell {
  import opened Wrappers

  /** Characters that keep a special meaning inside double quotes. */
  const QuotedSpecial: set<char> := {'\\', '$', '`'}

  /** Characters that have a special meaning outside quotes. */
  const UnquotedSpecial: set<char> :=
    {'\\', '$', '`', '\'', ';', '&', '|', '<', '>', '(', ')', '*', '?', '[', '#', '~', '\t', '\n'}

  /** A character that may stand inside double quotes and mean itself. */
  predicate QuotableChar(c: char)
  {
    c != '"' && c !in QuotedSpecial
  }

  /** A character that may stand outside quotes and mean itself. */
  predicate BareChar(c: char)
  {
    c != ' ' && c != '"' && c !in UnquotedSpecial
  }

  predicate Quotable(s: string)
  {
    forall i | 0 <= i < |s| :: QuotableChar(s[i])
  }

  predicate Bare(s: string)
  {
    forall i | 0 <= i < |s| :: BareChar(s[i])
  }

  /**
    Scans `s` left to right. `done` holds the finished words, `word` the word being
    built, `inWord` whether a word has been started (a pair of quotes starts an empty
    word), `quoted` whether the scan is inside double quotes.
   */
  function Scan(s: string, done: seq<string>, word: string, inWord: bool, quoted: bool): Option<seq<string>>
    decreases |s|
  {
    if s == [] then
      if quoted then None
      else if inWord then Some(done + [word])
      else Some(done)
    else
      var c := s[0];
      if quoted then
        if c == '"' then Scan(s[1..], done, word, true, false)
        else if c in QuotedSpecial then None
        else Scan(s[1..], done, word + [c], true, true)
      else if c == ' ' then Scan(s[1..], if inWord then done + [word] else done, [], false, false)
      else if c == '"' then Scan(s[1..], done, word, true, true)
      else if c in UnquotedSpecial then None
      else Scan(s[1..], done, word + [c], true, false)
  }

  /** The argument vector the shell hands to the program the command line starts. */
  function Words(cmd: string): Option<seq<string>>
  {
    Scan(cmd, [], [], false, false)
  }

  /** Inside double quotes, quotable characters are appended to the word as they are. */
  lemma {:induction false} ScanQuoted(t: string, rest: string, done: seq<string>, word: string)
    requires Quotable(t)
    ensures Scan(t + rest, done, word, true, true) == Scan(rest, done, word + t, true, true)
    decreases |t|
  {
    if t != [] {
      assert (t + rest)[0] == t[0] && (t + rest)[1..] == t[1..] + rest;
      ScanQuoted(t[1..], rest, done, word + [t[0]]);
      assert word + [t[0]] + t[1..] == word + t;
    } else {
      assert t + rest == rest && word + t == word;
    }
  }

  /** Outside quotes, bare characters are appended to the word as they are. */
  lemma {:induction false} ScanBare(t: string, rest: string, done: seq<string>, word: string, inWord: bool)
    requires Bare(t) && (t != [] || inWord)
    ensures Scan(t + rest, done, word, inWord, false) == Scan(rest, done, word + t, true, false)
    decreases |t|
  {
    if t != [] {
      assert (t + rest)[0] == t[0] && (t + rest)[1..] == t[1..] + rest;
      ScanBare(t[1..], rest, done, word + [t[0]], true);
      assert word + [t[0]] + t[1..] == word + t;
    } else {
      assert t + rest == rest && word + t == word;
    }
  }

  /** A bare word followed by a space is one argument. */
  lemma BareWord(w: string, rest: string, done: seq<string>)
    requires Bare(w) && w != []
    ensures Scan(w + " " + rest, done, [], false, false) == Scan(rest, done + [w], [], false, false)
  {
    assert w + " " + rest == w + (" " + rest);
    ScanBare(w, " " + rest, done, [], false);
    assert [] + w == w;
  }

  /** A double-quoted word followed by a space is one argument. */
  lemma QuotedWord(w: string, rest: string, done: seq<string>)
    requires Quotable(w)
    ensures Scan("\"" + w + "\" " + rest, done, [], false, false) == Scan(rest, done + [w], [], false, false)
  {
    var s := "\"" + w + "\" " + rest;
    assert s[0] == '"' && s[1..] == w + ("\" " + rest);
    ScanQuoted(w, "\" " + rest, done, []);
    assert [] + w == w;
    var u := "\" " + rest;
    assert u[0] == '"' && u[1..][0] == ' ' && u[1..][1..] == rest;
  }

  /** A double-quoted word at the end of the line is the last argument. */
  lemma QuotedLastWord(w: string, done: seq<string>)
    requires Quotable(w)
    ensures Scan("\"" + w + "\"", done, [], false, false) == Some(done + [w])
  {
    var s := "\"" + w + "\"";
    assert s[0] == '"' && s[1..] == w + "\"";
    ScanQuoted(w, "\"", done, []);
    assert [] + w == w;
  }

  /** Words each followed by one space. */
  function Spaced(ws: seq<string>): string
  {
    if ws == [] then [] else ws[0] + " " + Spaced(ws[1..])
  }

  /** Bare words each followed by a space are one argument each, in order. */
  lemma {:induction false} BareWords(ws: seq<string>, rest: string, done: seq<string>)
    requires forall i | 0 <= i < |ws| :: Bare(ws[i]) && ws[i] != []
    ensures Scan(Spaced(ws) + rest, done, [], false, false) == Scan(rest, done + ws, [], false, false)
    decreases |ws|
  {
    if ws == [] {
      assert Spaced(ws) + rest == rest && done + ws == done;
    } else {
      assert Spaced(ws) + rest == ws[0] + " " + (Spaced(ws[1..]) + rest);
      BareWord(ws[0], Spaced(ws[1..]) + rest, done);
      BareWords(ws[1..], rest, done + [ws[0]]);
      assert done + [ws[0]] + ws[1..] == done + ws;
    }
  }
}
