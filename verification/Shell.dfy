/**
 Command lines for root: quoting arguments for a POSIX shell, and the path a root command may
 act on.

 The partner of the quoting is a shell's own reading of a line, sections 2.2.1, 2.2.2 and 2.3
 of the Shell Command Language: blanks separate words, a backslash and single quotes quote.
 Whatever else could mean something unquoted, it refuses to read, so a line that it reads is
 one in which nothing is expanded, redirected or run.
 */
module Shell {
  import opened Wrappers
  import opened Text
  import Sudo

  // ------------------------------------------------------------------ how a shell reads a line

  datatype Reader = Reader(words: seq<string>, state: State)

  datatype State =
    | Between
    | Word(text: string)
    | Single(text: string)
    | Escaped(text: string)
    | Unreadable

  predicate IsBlank(c: char) { c == ' ' || c == '\t' }

  /** Characters that mean only themselves unquoted. */
  predicate IsPlain(c: char) {
    'a' <= c <= 'z' || 'A' <= c <= 'Z' || '0' <= c <= '9' || c in "_-./:,+@%"
  }

  function Feed1(r: Reader, c: char): Reader {
    match r.state
    case Unreadable => r
    case Single(w) => if c == '\'' then r.(state := Word(w)) else r.(state := Single(w + [c]))
    case Escaped(w) => if c == '\n' then r.(state := Unreadable) else r.(state := Word(w + [c]))
    case Between => FeedUnquoted(r, [], c)
    case Word(w) => if IsBlank(c) then Reader(r.words + [w], Between) else FeedUnquoted(r, w, c)
  }

  function FeedUnquoted(r: Reader, w: string, c: char): Reader {
    if IsBlank(c) then r
    else if c == '\'' then r.(state := Single(w))
    else if c == '\\' then r.(state := Escaped(w))
    else if IsPlain(c) then r.(state := Word(w + [c]))
    else r.(state := Unreadable)
  }

  function Feed(r: Reader, line: string): Reader
    decreases line
  {
    if line == [] then r else Feed(Feed1(r, line[0]), line[1..])
  }

  /** What has been read when the line ends, unless it ends inside quotes. */
  function AllWords(r: Reader): Option<seq<string>> {
    match r.state
    case Between => Some(r.words)
    case Word(w) => Some(r.words + [w])
    case _ => None
  }

  /** The words of a line, if all of it can be read. */
  function Words(line: string): Option<seq<string>> {
    AllWords(Feed(Reader([], Between), line))
  }

  lemma {:induction false} FeedConcat(r: Reader, a: string, b: string)
    ensures Feed(r, a + b) == Feed(Feed(r, a), b)
    decreases a
  {
    if a == [] {
      assert a + b == b;
    } else {
      assert (a + b)[1..] == a[1..] + b;
      FeedConcat(Feed1(r, a[0]), a[1..], b);
    }
  }

  /** Reading on where an earlier part of the line ended. */
  lemma FeedOn(r: Reader, a: string, b: string, middle: Reader, end: Reader)
    requires Feed(r, a) == middle && Feed(middle, b) == end
    ensures Feed(r, a + b) == end
  {
    FeedConcat(r, a, b);
  }

  lemma FeedOne(r: Reader, c: char)
    ensures Feed(r, [c]) == Feed1(r, c)
  {
    assert [c][1..] == [];
  }

  // ------------------------------------------------------------------ quoting

  /** Each quote leaves the quotes, is escaped, and enters them again. */
  function EscapeQuotes(text: string): string {
    if text == [] then []
    else (if text[0] == '\'' then "'\\''" else [text[0]]) + EscapeQuotes(text[1..])
  }

  /** A string as one word for a POSIX shell. */
  function Quote(text: string): string {
    "'" + EscapeQuotes(text) + "'"
  }

  function Join(words: seq<string>, separator: string): string {
    if words == [] then []
    else if |words| == 1 then words[0]
    else words[0] + separator + Join(words[1..], separator)
  }

  function QuoteAll(args: seq<string>): seq<string> {
    seq(|args|, i requires 0 <= i < |args| => Quote(args[i]))
  }

  /** A script run as root with `sudo sh -c`, its arguments quoted. */
  function AsRoot(script: string, args: seq<string>): string {
    "sudo " + "-p " + InQuotes(Sudo.SUDO_PROMPT) + " " + "-- " + "sh " + "-c " + InQuotes(script) + " " + "uwussh "
      + Join(QuoteAll(args), " ")
  }

  function InQuotes(text: string): string {
    "'" + text + "'"
  }

  lemma {:induction false} FeedEscaped(r: Reader, w: string, text: string)
    requires r.state == Single(w)
    ensures Feed(r, EscapeQuotes(text)) == r.(state := Single(w + text))
    decreases text
  {
    if text == [] {
      assert w + text == w;
    } else {
      var next := r.(state := Single(w + [text[0]]));
      assert w + text == (w + [text[0]]) + text[1..];
      FeedEscaped(next, w + [text[0]], text[1..]);
      if text[0] == '\'' {
        FeedQuoteInQuotes(r, w);
        FeedOn(r, "'\\''", EscapeQuotes(text[1..]), next, r.(state := Single(w + text)));
      } else {
        FeedOne(r, text[0]);
        FeedOn(r, [text[0]], EscapeQuotes(text[1..]), next, r.(state := Single(w + text)));
      }
    }
  }

  lemma FeedQuoteInQuotes(r: Reader, w: string)
    requires r.state == Single(w)
    ensures Feed(r, "'\\''") == r.(state := Single(w + ['\'']))
  {
    var outside, escaped, again := r.(state := Word(w)), r.(state := Escaped(w)), r.(state := Word(w + ['\'']));
    FeedOne(r, '\'');
    FeedOne(outside, '\\');
    FeedOne(escaped, '\'');
    FeedOne(again, '\'');
    FeedOn(r, ['\''], ['\\'], outside, escaped);
    FeedOn(r, ['\''] + ['\\'], ['\''], escaped, again);
    FeedOn(r, ['\''] + ['\\'] + ['\''], ['\''], again, r.(state := Single(w + ['\''])));
    assert ['\''] + ['\\'] + ['\''] + ['\''] == "'\\''";
  }

  /** Text in quotes that is read verbatim between them is read as exactly one word. */
  lemma FeedInQuotes(r: Reader, inner: string, text: string)
    requires r.state == Between && Feed(r.(state := Single([])), inner) == r.(state := Single(text))
    ensures Feed(r, "'" + inner + "'") == r.(state := Word(text))
  {
    FeedOne(r, '\'');
    FeedOn(r, "'", inner, r.(state := Single([])), r.(state := Single(text)));
    FeedOne(r.(state := Single(text)), '\'');
    FeedOn(r, "'" + inner, "'", r.(state := Single(text)), r.(state := Word(text)));
  }

  lemma FeedQuoted(r: Reader, text: string)
    requires r.state == Between
    ensures Feed(r, Quote(text)) == r.(state := Word(text))
  {
    FeedEscaped(r.(state := Single([])), [], text);
    assert [] + text == text;
    FeedInQuotes(r, EscapeQuotes(text), text);
  }

  lemma {:induction false} FeedArguments(r: Reader, args: seq<string>)
    requires r.state == Between
    ensures AllWords(Feed(r, Join(QuoteAll(args), " "))) == Some(r.words + args)
    decreases |args|
  {
    if args == [] {
      assert r.words + args == r.words;
    } else if |args| == 1 {
      FeedQuoted(r, args[0]);
      assert args == [args[0]];
    } else {
      var rest := args[1..];
      assert QuoteAll(args)[1..] == QuoteAll(rest) && QuoteAll(args)[0] == Quote(args[0]);
      FeedQuoted(r, args[0]);
      var after := Reader(r.words + [args[0]], Between);
      FeedOne(r.(state := Word(args[0])), ' ');
      FeedOn(r, Quote(args[0]), " ", r.(state := Word(args[0])), after);
      FeedConcat(r, Quote(args[0]) + " ", Join(QuoteAll(rest), " "));
      FeedArguments(after, rest);
      assert r.words + args == after.words + rest;
    }
  }

  /** A shell reads back exactly the arguments that were quoted. */
  lemma QuotingIsReadBack(args: seq<string>)
    ensures Words(Join(QuoteAll(args), " ")) == Some(args)
  {
    FeedArguments(Reader([], Between), args);
    assert [] + args == args;
  }

  lemma FeedPlain1(r: Reader, w: string, c: char)
    requires (r.state == Between && w == []) || r.state == Word(w)
    requires IsPlain(c)
    ensures Feed1(r, c) == r.(state := Word(w + [c]))
  {
  }

  lemma {:induction false} FeedPlain(r: Reader, w: string, text: string)
    requires r.state == Word(w) && forall i :: 0 <= i < |text| ==> IsPlain(text[i])
    ensures Feed(r, text) == r.(state := Word(w + text))
    decreases text
  {
    if text == [] {
      assert w + text == w;
    } else {
      FeedPlain1(r, w, text[0]);
      FeedPlain(r.(state := Word(w + [text[0]])), w + [text[0]], text[1..]);
      assert w + text == (w + [text[0]]) + text[1..];
    }
  }

  /** A plain word and the blank after it. */
  lemma FeedWord(r: Reader, word: string)
    requires r.state == Between && word != [] && forall i :: 0 <= i < |word| ==> IsPlain(word[i])
    ensures Feed(r, word + " ") == Reader(r.words + [word], Between)
  {
    FeedPlain1(r, [], word[0]);
    assert [] + [word[0]] == [word[0]];
    FeedPlain(r.(state := Word([word[0]])), [word[0]], word[1..]);
    assert [word[0]] + word[1..] == word;
    assert Feed(r, word) == r.(state := Word(word));
    FeedOne(r.(state := Word(word)), ' ');
    FeedOn(r, word, " ", r.(state := Word(word)), Reader(r.words + [word], Between));
  }

  lemma {:induction false} FeedVerbatim(r: Reader, w: string, text: string)
    requires r.state == Single(w) && '\'' !in text
    ensures Feed(r, text) == r.(state := Single(w + text))
    decreases text
  {
    if text == [] {
      assert w + text == w;
    } else {
      FeedVerbatim(r.(state := Single(w + [text[0]])), w + [text[0]], text[1..]);
      assert w + text == (w + [text[0]]) + text[1..];
    }
  }

  /** Text between quotes that has none itself, and the blank after it. */
  lemma FeedLiteral(before: string, r: Reader, text: string)
    requires Feed(Reader([], Between), before) == r && r.state == Between && '\'' !in text
    ensures Feed(Reader([], Between), before + InQuotes(text) + " ") == Reader(r.words + [text], Between)
  {
    FeedVerbatim(r.(state := Single([])), [], text);
    assert [] + text == text;
    FeedInQuotes(r, text, text);
    FeedOne(r.(state := Word(text)), ' ');
    FeedOn(Reader([], Between), before, InQuotes(text), r, r.(state := Word(text)));
    FeedOn(Reader([], Between), before + InQuotes(text), " ", r.(state := Word(text)),
        Reader(r.words + [text], Between));
  }

  lemma FeedNext(before: string, r: Reader, word: string)
    requires Feed(Reader([], Between), before) == r && r.state == Between
    requires word != [] && forall i :: 0 <= i < |word| ==> IsPlain(word[i])
    ensures Feed(Reader([], Between), before + (word + " ")) == Reader(r.words + [word], Between)
  {
    FeedWord(r, word);
    FeedOn(Reader([], Between), before, word + " ", r, Reader(r.words + [word], Between));
  }

  /** What comes before the script. */
  lemma RootCommandStarts()
    ensures Feed(Reader([], Between), "sudo " + "-p " + InQuotes(Sudo.SUDO_PROMPT) + " " + "-- " + "sh " + "-c ")
         == Reader(["sudo", "-p", Sudo.SUDO_PROMPT, "--", "sh", "-c"], Between)
  {
    var start := Reader([], Between);
    FeedWord(start, "sudo");
    assert "sudo " == "sudo" + " " && "-p " == "-p" + " " && "-- " == "--" + " " && "sh " == "sh" + " "
           && "-c " == "-c" + " ";
    assert [] + ["sudo"] == ["sudo"];
    FeedNext("sudo ", Reader(["sudo"], Between), "-p");
    var words := ["sudo"] + ["-p"];
    FeedLiteral("sudo " + "-p ", Reader(words, Between), Sudo.SUDO_PROMPT);
    var line := "sudo " + "-p " + InQuotes(Sudo.SUDO_PROMPT) + " ";
    words := words + [Sudo.SUDO_PROMPT];
    FeedNext(line, Reader(words, Between), "--");
    FeedNext(line + "-- ", Reader(words + ["--"], Between), "sh");
    FeedNext(line + "-- " + "sh ", Reader(words + ["--"] + ["sh"], Between), "-c");
    assert words + ["--"] + ["sh"] + ["-c"] == ["sudo", "-p", Sudo.SUDO_PROMPT, "--", "sh", "-c"];
  }

  /** The whole command is read as sudo running the script, with exactly the given arguments. */
  lemma RootCommandIsReadBack(script: string, args: seq<string>)
    requires '\'' !in script
    ensures Words(AsRoot(script, args))
            == Some(["sudo", "-p", Sudo.SUDO_PROMPT, "--", "sh", "-c", script, "uwussh"] + args)
  {
    RootCommandStarts();
    var line, words := "sudo " + "-p " + InQuotes(Sudo.SUDO_PROMPT) + " " + "-- " + "sh " + "-c ",
        ["sudo", "-p", Sudo.SUDO_PROMPT, "--", "sh", "-c"];
    FeedLiteral(line, Reader(words, Between), script);
    assert "uwussh " == "uwussh" + " ";
    FeedNext(line + InQuotes(script) + " ", Reader(words + [script], Between), "uwussh");
    var last := Reader(words + [script] + ["uwussh"], Between);
    FeedConcat(Reader([], Between), line + InQuotes(script) + " " + "uwussh ", Join(QuoteAll(args), " "));
    FeedArguments(last, args);
    assert last.words + args == ["sudo", "-p", Sudo.SUDO_PROMPT, "--", "sh", "-c", script, "uwussh"] + args;
  }

  // ------------------------------------------------------------------ what a root command may act on

  datatype RootTarget = RootTarget(parent: string, name: string)

  /** The pieces between slashes, empty ones included. */
  function Pieces(path: string): (pieces: seq<string>)
    ensures pieces != []
  {
    if path == [] then [[]]
    else
      var rest := Pieces(path[1..]);
      if path[0] == '/' then [[]] + rest else [[path[0]] + rest[0]] + rest[1..]
  }

  predicate IsComponent(piece: string) { piece != "" && piece != "." }

  function Components(pieces: seq<string>): (parts: seq<string>)
    ensures forall part :: part in parts <==> part in pieces && IsComponent(part)
  {
    if pieces == [] then []
    else if IsComponent(pieces[0]) then [pieces[0]] + Components(pieces[1..])
    else Components(pieces[1..])
  }

  predicate HasControl(path: string) {
    exists i :: 0 <= i < |path| && IsControl(path[i])
  }

  predicate EndsInSlash(path: string) {
    || (path != [] && path[|path| - 1] == '/')
    || (|path| >= 2 && path[|path| - 2..] == "/.")
  }

  function ToRootTarget(path: string): Option<RootTarget> {
    var parts := Components(Pieces(path));
    if path == [] || path[0] != '/' || EndsInSlash(path) || ".." in parts || HasControl(path) || parts == [] then None
    else Some(RootTarget("/" + Join(parts[..|parts| - 1], "/"), parts[|parts| - 1]))
  }

  /** A POSIX path joined with a name. */
  function JoinPath(dir: string, name: string): string {
    if dir != [] && dir[|dir| - 1] == '/' then dir + name else dir + "/" + name
  }

  predicate NoSlash(piece: string) { '/' !in piece }

  lemma {:induction false} PiecesHaveNoSlash(path: string)
    ensures forall piece :: piece in Pieces(path) ==> NoSlash(piece)
    ensures forall piece, c :: piece in Pieces(path) && c in piece ==> c in path
  {
    if path != [] {
      PiecesHaveNoSlash(path[1..]);
      var rest := Pieces(path[1..]);
      forall piece | piece in Pieces(path)
        ensures NoSlash(piece) && forall c :: c in piece ==> c in path
      {
        assert rest[0] in rest && path == [path[0]] + path[1..];
        assert piece == [] || piece in rest || (path[0] != '/' && piece == [path[0]] + rest[0]);
      }
    }
  }

  lemma {:induction false} PiecesOfPiece(piece: string)
    requires NoSlash(piece)
    ensures Pieces(piece) == [piece]
  {
    if piece != [] {
      PiecesOfPiece(piece[1..]);
      assert [piece[0]] + piece[1..] == piece;
    }
  }

  lemma {:induction false} PiecesOfConcat(piece: string, path: string)
    requires NoSlash(piece)
    ensures Pieces(piece + "/" + path) == [piece] + Pieces(path)
  {
    var whole := piece + "/" + path;
    if piece == [] {
      assert whole[1..] == path;
    } else {
      assert whole[1..] == piece[1..] + "/" + path;
      PiecesOfConcat(piece[1..], path);
      assert [piece[0]] + piece[1..] == piece;
    }
  }

  /** Splitting undoes joining. */
  lemma {:induction false} PiecesOfJoin(parts: seq<string>)
    requires parts != [] && forall part :: part in parts ==> NoSlash(part)
    ensures Pieces(Join(parts, "/")) == parts
  {
    if |parts| == 1 {
      PiecesOfPiece(parts[0]);
    } else {
      var rest := Join(parts[1..], "/");
      PiecesOfJoin(parts[1..]);
      PiecesOfConcat(parts[0], rest);
      assert Join(parts, "/") == parts[0] + "/" + rest;
      assert [parts[0]] + parts[1..] == parts;
    }
  }

  function LastPiece(path: string): string {
    Pieces(path)[|Pieces(path)| - 1]
  }

  /** A character in front changes the first piece or adds one, and leaves a last piece that is not the first. */
  lemma LastPieceOfLonger(c: char, rest: string)
    requires |Pieces(rest)| > 1
    ensures |Pieces([c] + rest)| > 1 && LastPiece([c] + rest) == LastPiece(rest)
  {
    assert ([c] + rest)[1..] == rest;
  }

  lemma LastPieceOfTwo(name: string)
    requires NoSlash(name)
    ensures |Pieces("/" + name)| > 1 && LastPiece("/" + name) == name
  {
    PiecesOfPiece(name);
    assert ("/" + name)[1..] == name;
  }

  lemma EndsLikeTheRest(a: string, rest: string)
    requires |rest| >= 2
    ensures EndsInSlash(a + rest) == EndsInSlash(rest)
  {
    var path := a + rest;
    assert path[|path| - 1] == rest[|rest| - 1] && path[|path| - 2..] == rest[|rest| - 2..];
  }

  lemma EndsInSlashOrName(name: string)
    requires NoSlash(name)
    ensures EndsInSlash("/" + name) <==> !IsComponent(name)
  {
    var path := "/" + name;
    if |name| == 1 {
      assert path[|path| - 1] == name[0] && name[0] in name;
      assert path[|path| - 2..] == path && path[1] == name[0];
      assert name == "." <==> name[0] == '.';
    } else if |name| >= 2 {
      assert path[|path| - 1] == name[|name| - 1] && name[|name| - 1] in name;
      assert path[|path| - 2..][0] == name[|name| - 2] && name[|name| - 2] in name;
    }
  }

  /** The check of the path's end is a check of its last piece. */
  lemma {:induction false} EndsInSlashIsNoName(path: string)
    requires '/' in path
    ensures EndsInSlash(path) <==> !IsComponent(LastPiece(path))
    ensures |Pieces(path)| > 1
  {
    var c, rest := path[0], path[1..];
    assert path == [c] + rest;
    if '/' in rest {
      EndsInSlashIsNoName(rest);
      LastPieceOfLonger(c, rest);
      SlashInFront(c, rest);
    } else {
      assert path == "/" + rest;
      LastPieceOfTwo(rest);
      EndsInSlashOrName(rest);
    }
  }

  lemma SlashInFront(c: char, rest: string)
    requires '/' in rest
    ensures EndsInSlash([c] + rest) <==> EndsInSlash(rest)
  {
    if |rest| >= 2 {
      EndsLikeTheRest([c], rest);
    } else {
      assert rest == "/";
      assert ([c] + rest)[1] == '/';
    }
  }

  /** Exactly the absolute paths without `..` or control characters whose last piece is a name. */
  lemma RootTargetAccepts(path: string)
    ensures ToRootTarget(path).Some? <==>
              && path != [] && path[0] == '/' && LastPiece(path) != "" && LastPiece(path) != "."
              && ".." !in Pieces(path) && forall i :: 0 <= i < |path| ==> !IsControl(path[i])
    ensures ToRootTarget(path).Some? ==> ToRootTarget(path).value.name == LastPiece(path)
  {
    if path != [] && path[0] == '/' {
      EndsInSlashIsNoName(path);
      LastPieceIsKept(Pieces(path));
    }
  }

  lemma {:induction false} LastPieceIsKept(pieces: seq<string>)
    requires pieces != []
    ensures IsComponent(pieces[|pieces| - 1]) ==>
              Components(pieces) != [] && Components(pieces)[|Components(pieces)| - 1] == pieces[|pieces| - 1]
    ensures ".." in Components(pieces) <==> ".." in pieces
  {
    if |pieces| > 1 {
      LastPieceIsKept(pieces[1..]);
    }
  }

  lemma {:induction false} ComponentsOfComponents(parts: seq<string>)
    requires forall part :: part in parts ==> IsComponent(part)
    ensures Components(parts) == parts
  {
    if parts != [] {
      ComponentsOfComponents(parts[1..]);
    }
  }

  lemma {:induction false} JoinLast(parts: seq<string>, name: string)
    requires parts != []
    ensures Join(parts + [name], "/") == Join(parts, "/") + "/" + name
  {
    if |parts| == 1 {
      assert parts + [name] == [parts[0], name];
    } else {
      assert (parts + [name])[1..] == parts[1..] + [name];
      JoinLast(parts[1..], name);
    }
  }

  lemma {:induction false} JoinOfCharacters(parts: seq<string>, c: char)
    requires c in Join(parts, "/")
    ensures c == '/' || exists part :: part in parts && c in part
  {
    if |parts| > 1 && c !in parts[0] && c != '/' {
      JoinOfCharacters(parts[1..], c);
    } else if |parts| >= 1 && c != '/' {
      assert parts[0] in parts;
    }
  }

  /** Parts that a path may be made of: names, in the folder sense. */
  ghost predicate Names(parts: seq<string>) {
    forall part :: part in parts ==> IsComponent(part) && part != ".." && NoSlash(part) && !HasControl(part)
  }

  lemma {:induction false} JoinEndsInName(parts: seq<string>)
    requires parts != [] && Names(parts)
    ensures Join(parts, "/") != [] && !EndsInSlash("/" + Join(parts, "/"))
  {
    if |parts| == 1 {
      assert parts[0] in parts;
      EndsInSlashOrName(parts[0]);
    } else {
      JoinEndsInName(parts[1..]);
      var rest := "/" + Join(parts[1..], "/");
      var path := "/" + Join(parts, "/");
      assert path == ("/" + parts[0]) + rest;
      EndsLikeTheRest("/" + parts[0], rest);
    }
  }

  /** A path spelled with proper names is parsed into them. */
  lemma NormalPathParses(parts: seq<string>)
    requires parts != [] && Names(parts)
    ensures ToRootTarget("/" + Join(parts, "/"))
            == Some(RootTarget("/" + Join(parts[..|parts| - 1], "/"), parts[|parts| - 1]))
  {
    var path := "/" + Join(parts, "/");
    PiecesOfJoin(parts);
    PiecesOfConcat([], Join(parts, "/"));
    assert [] + "/" + Join(parts, "/") == path;
    assert ([[]] + parts)[1..] == parts;
    ComponentsOfComponents(parts);
    assert Components(Pieces(path)) == parts;
    JoinEndsInName(parts);
    forall i | 0 <= i < |path| ensures !IsControl(path[i]) {
      if i > 0 {
        assert path[i] in Join(parts, "/");
        JoinOfCharacters(parts, path[i]);
      }
    }
  }

  /**
   An accepted path is taken apart into names: none is empty, `.` or `..`, and together they
   are the input's components. Put together again, they are taken apart the same way.
   */
  lemma RootTargetIsNormal(path: string)
    requires ToRootTarget(path).Some?
    ensures var t, parts := ToRootTarget(path).value, Components(Pieces(path));
            && Names(parts) && parts != [] && t.name == parts[|parts| - 1]
            && Components(Pieces(t.parent)) + [t.name] == parts
            && ToRootTarget(JoinPath(t.parent, t.name)) == Some(t)
  {
    var t, parts := ToRootTarget(path).value, Components(Pieces(path));
    ComponentsAreNames(path);
    var folders := parts[..|parts| - 1];
    assert parts == folders + [t.name];
    ParentIsNormal(folders);
    RejoinedPath(folders, t.name);
    NormalPathParses(parts);
  }

  lemma ComponentsAreNames(path: string)
    requires ToRootTarget(path).Some?
    ensures Names(Components(Pieces(path)))
  {
    PiecesHaveNoSlash(path);
    forall part, i | part in Components(Pieces(path)) && 0 <= i < |part| ensures !IsControl(part[i]) {
      assert part[i] in path;
    }
  }

  lemma RejoinedPath(folders: seq<string>, name: string)
    requires Names(folders)
    ensures JoinPath("/" + Join(folders, "/"), name) == "/" + Join(folders + [name], "/")
  {
    if folders == [] {
      assert folders + [name] == [name];
    } else {
      JoinLast(folders, name);
      JoinEndsInName(folders);
    }
  }

  lemma ParentIsNormal(folders: seq<string>)
    requires Names(folders)
    ensures Components(Pieces("/" + Join(folders, "/"))) == folders
  {
    PiecesOfConcat([], Join(folders, "/"));
    assert [] + "/" + Join(folders, "/") == "/" + Join(folders, "/");
    if folders != [] {
      PiecesOfJoin(folders);
      ComponentsOfComponents(folders);
      assert ([[]] + folders)[1..] == folders;
    } else {
      assert Pieces("/" + Join(folders, "/")) == [""] + [""];
      assert Components([""] + [""]) == Components([""]) by {
        assert ([""] + [""])[1..] == [""];
      }
      assert Components([""]) == [];
    }
  }
}
