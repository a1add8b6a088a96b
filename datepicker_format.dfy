/**
 * The plugin's translator from a PHP `date()` format pattern (such as the
 * WordPress `date_format` option) to a jQuery UI Datepicker `dateFormat`
 * pattern, so that the admin date picker shows dates the way the server
 * formats them.
 *
 * The translator is a left-to-right scanner with one boolean of state,
 * `escaping`. A backslash makes the next character a literal: the first
 * literal of a run is preceded by a single quote, later ones follow it
 * directly, and the first ordinary character after the run closes it with
 * another single quote. An ordinary character is looked up in a fixed
 * table of 28 tokens and replaced by its image (possibly empty); any other
 * character is copied.
 *
 * A pattern is the PHP string as PHP sees it, a sequence of bytes: each
 * `char` here stands for one byte.
 */
module DatepickerFormat {

  /** PHP's `date()` escape character. */
  const Backslash: char := '\\'

  /** The Datepicker's literal delimiter. */
  const Quote: char := '\''

  /** Whether a table entry exists for a character, and if so its Datepicker pattern. */
  datatype Entry = Missing | Mapped(image: string)

  /**
   * The token table: a PHP format character to its Datepicker pattern, or
   * `Missing` for a character the table has no entry for.
   */
  function PhpMatchingJs(c: char): Entry
  {
    match c
    // Day
    case 'd' => Mapped("dd")
    case 'D' => Mapped("D")
    case 'j' => Mapped("d")
    case 'l' => Mapped("DD")
    case 'N' => Mapped("")
    case 'S' => Mapped("")
    case 'w' => Mapped("")
    case 'z' => Mapped("o")
    // Week
    case 'W' => Mapped("")
    // Month
    case 'F' => Mapped("MM")
    case 'm' => Mapped("mm")
    case 'M' => Mapped("M")
    case 'n' => Mapped("m")
    case 't' => Mapped("")
    // Year
    case 'L' => Mapped("")
    case 'o' => Mapped("")
    case 'Y' => Mapped("yy")
    case 'y' => Mapped("y")
    // Time
    case 'a' => Mapped("")
    case 'A' => Mapped("")
    case 'B' => Mapped("")
    case 'g' => Mapped("")
    case 'G' => Mapped("")
    case 'h' => Mapped("")
    case 'H' => Mapped("")
    case 'i' => Mapped("")
    case 's' => Mapped("")
    case 'u' => Mapped("")
    case _ => Missing
  }

  /** The 28 characters the table has an entry for. */
  const TableKeys: set<char> :=
    {'d', 'D', 'j', 'l', 'N', 'S', 'w', 'z', 'W', 'F', 'm', 'M', 'n', 't',
     'L', 'o', 'Y', 'y', 'a', 'A', 'B', 'g', 'G', 'h', 'H', 'i', 's', 'u'}

  /** The PHP tokens the Datepicker has no counterpart for. */
  const DroppedTokens: set<char> :=
    {'N', 'S', 'w', 'W', 't', 'L', 'o', 'a', 'A', 'B', 'g', 'G', 'h', 'H', 'i', 's', 'u'}

  /** What one unescaped character contributes: its table image, or itself. */
  function Image(c: char): string
  {
    match PhpMatchingJs(c)
    case Mapped(image) => image
    case Missing => [c]
  }

  /** The images under `image` of the characters of `s`, concatenated in order. */
  function ImageAll(image: char -> string, s: string): string
  {
    if s == [] then "" else image(s[0]) + ImageAll(image, s[1..])
  }

  // ---------------------------------------------------------------------
  // The specification of the scanner

  /**
   * The scanner, for any token image: the output for the rest `s` of the
   * input when the flag `escaping` says whether a literal run is open. A
   * backslash with nothing after it escapes the empty string. The general
   * lemmas below are stated for every `image`, so they hold whatever the
   * table holds.
   */
  function Scan(image: char -> string, s: string, escaping: bool): string
    decreases |s|
  {
    if s == [] then ""
    else if s[0] != Backslash then
      (if escaping then [Quote] else "") + image(s[0]) + Scan(image, s[1..], false)
    else if |s| == 1 then
      (if escaping then "" else [Quote])
    else
      (if escaping then "" else [Quote]) + [s[1]] + Scan(image, s[2..], true)
  }

  /** What the plugin's translator returns for `phpFormat`. */
  function DatepickerFormatOf(phpFormat: string): string
  {
    Scan(Image, phpFormat, false)
  }

  /** The value of `escaping` once the scanner has consumed all of `s`. */
  function EscapingAfter(s: string, escaping: bool): bool
    decreases |s|
  {
    if s == [] then escaping
    else if s[0] != Backslash then EscapingAfter(s[1..], false)
    else |s| == 1 || EscapingAfter(s[2..], true)
  }

  /** `s` does not end in a backslash that escapes nothing. */
  predicate Complete(s: string)
    decreases |s|
  {
    if s == [] then true
    else if s[0] == Backslash then |s| >= 2 && Complete(s[2..])
    else Complete(s[1..])
  }

  /** The pattern `\l0\l1...`: every character of `lits` escaped. */
  function EscapeAll(lits: string): string
  {
    if lits == [] then "" else [Backslash, lits[0]] + EscapeAll(lits[1..])
  }

  // ---------------------------------------------------------------------
  // The loop of `php_to_datepicker_format`

  /** PHP's `$s[$i]` read: the character at `i`, or the empty string past the end. */
  function CharAt(s: string, i: nat): (r: string)
    ensures |r| <= 1
    ensures r == "" <==> i >= |s|
    ensures i < |s| ==> r[0] == s[i]
  {
    if i < |s| then [s[i]] else ""
  }

  /** The suffix of `s` from index `i`; empty once `i` is past the end. */
  function Drop(s: string, i: nat): string
  {
    if i <= |s| then s[i..] else ""
  }

  /**
   * One step of the scanner seen from index `i` of the whole pattern, with
   * PHP's reads: after a backslash the escaped text is `CharAt(s, i + 1)`,
   * which is empty when the backslash is last, and scanning resumes at `i + 2`.
   */
  lemma ScanAt(image: char -> string, s: string, i: nat, escaping: bool)
    requires i < |s|
    ensures s[i] != Backslash ==>
      Scan(image, Drop(s, i), escaping) ==
      (if escaping then [Quote] else "") + image(s[i]) + Scan(image, Drop(s, i + 1), false)
    ensures s[i] == Backslash ==>
      Scan(image, Drop(s, i), escaping) ==
      (if escaping then "" else [Quote]) + CharAt(s, i + 1) + Scan(image, Drop(s, i + 2), true)
  {
    var rest := s[i..];
    assert rest[0] == s[i];
    if s[i] != Backslash {
      assert rest[1..] == Drop(s, i + 1);
    } else if i + 1 < |s| {
      assert rest[1] == s[i + 1];
      assert rest[2..] == Drop(s, i + 2);
    }
  }

  /** Concatenation regrouped. */
  lemma Assoc(a: string, b: string, c: string)
    ensures a + b + c == a + (b + c)
  {
  }

  /**
   * The plugin's `php_to_datepicker_format` loop: one pass over `phpFormat`, stepping over the escaped
   * character after a backslash by a second increment of `i`, and reading
   * past the end as the empty string when the backslash is last.
   */
  method PhpToDatepickerFormat(phpFormat: string) returns (jsFormat: string)
    ensures jsFormat == DatepickerFormatOf(phpFormat)
  {
    jsFormat := "";
    var escaping := false;
    var i := 0;
    while i < |phpFormat|
      invariant 0 <= i <= |phpFormat| + 1
      invariant jsFormat + Scan(Image, Drop(phpFormat, i), escaping) == DatepickerFormatOf(phpFormat)
      decreases |phpFormat| + 1 - i
    {
      var c := phpFormat[i];
      ScanAt(Image, phpFormat, i, escaping);
      ghost var before := jsFormat;
      if c == Backslash {
        ghost var emitted := (if escaping then "" else [Quote]) + CharAt(phpFormat, i + 1);
        i := i + 1;
        if escaping {
          jsFormat := jsFormat + CharAt(phpFormat, i);
        } else {
          jsFormat := jsFormat + [Quote] + CharAt(phpFormat, i);
          Assoc(before, [Quote], CharAt(phpFormat, i));
        }
        escaping := true;
        assert jsFormat == before + emitted;
        Assoc(before, emitted, Scan(Image, Drop(phpFormat, i + 1), true));
      } else {
        ghost var mark := if escaping then [Quote] else "";
        if escaping {
          jsFormat := jsFormat + [Quote];
          escaping := false;
        }
        ghost var closed := jsFormat;
        assert closed == before + mark;
        var entry := PhpMatchingJs(c);
        if entry.Mapped? {
          jsFormat := jsFormat + entry.image;
        } else {
          jsFormat := jsFormat + [c];
        }
        assert jsFormat == closed + Image(c);
        Assoc(before, mark, Image(c));
        Assoc(before, mark + Image(c), Scan(Image, Drop(phpFormat, i + 1), false));
      }
      i := i + 1;
    }
  }

  // ---------------------------------------------------------------------
  // The token table

  /** The table has an entry for exactly the 28 listed PHP tokens; neither quote nor backslash is one. */
  lemma TableKeySet(c: char)
    ensures PhpMatchingJs(c).Mapped? <==> c in TableKeys
    ensures Backslash !in TableKeys && Quote !in TableKeys
  {
  }

  /** The tokens with a Datepicker counterpart and what they become. */
  lemma MappedTokens()
    ensures Image('d') == "dd" && Image('D') == "D" && Image('j') == "d"
    ensures Image('l') == "DD" && Image('z') == "o"
    ensures Image('F') == "MM" && Image('m') == "mm" && Image('M') == "M" && Image('n') == "m"
    ensures Image('Y') == "yy" && Image('y') == "y"
  {
  }

  /** A character contributes nothing exactly when it is a dropped token. */
  lemma DroppedIff(c: char)
    ensures Image(c) == "" <==> c in DroppedTokens
    ensures c in DroppedTokens ==> PhpMatchingJs(c) == Mapped("")
  {
  }

  /** A lone unescaped character translates to its table image, or to itself if it has none. */
  lemma SingleCharacter(c: char)
    requires c != Backslash
    ensures PhpMatchingJs(c).Mapped? ==> DatepickerFormatOf([c]) == PhpMatchingJs(c).image
    ensures PhpMatchingJs(c).Missing? ==> DatepickerFormatOf([c]) == [c]
  {
    assert [c][0] == c && [c][1..] == "";
    assert Scan(Image, [c][1..], false) == "";
    assert DatepickerFormatOf([c]) == "" + Image(c) + "";
    assert "" + Image(c) + "" == Image(c);
  }

  // ---------------------------------------------------------------------
  // Properties of the scanner

  /** Scanning a concatenation hands the scanner's state from one part to the next. */
  lemma {:induction false} ScanAppend(image: char -> string, s: string, t: string, escaping: bool)
    requires Complete(s)
    ensures Scan(image, s + t, escaping) ==
      Scan(image, s, escaping) + Scan(image, t, EscapingAfter(s, escaping))
    decreases |s|
  {
    if s == [] {
      assert s + t == t;
    } else {
      var p, rest := FirstPiece(s), AfterFirstPiece(s);
      var mark, content := Mark(escaping, p), Content(image, p);
      FirstPieceOfAppend(s, t, escaping);
      var after := EscapingAfter(rest, Quoted(p));
      assert Scan(image, s + t, escaping) == mark + content + Scan(image, rest + t, Quoted(p)) by {
        ScanStep(image, s + t, escaping);
      }
      assert Scan(image, rest + t, Quoted(p)) == Scan(image, rest, Quoted(p)) + Scan(image, t, after) by {
        ScanAppend(image, rest, t, Quoted(p));
      }
      assert Scan(image, s, escaping) == mark + content + Scan(image, rest, Quoted(p)) by {
        ScanStep(image, s, escaping);
      }
      Assoc(mark, content, Scan(image, rest, Quoted(p)));
      Assoc(mark + content, Scan(image, rest, Quoted(p)), Scan(image, t, after));
    }
  }

  /** A complete non-empty pattern starts with the same piece whatever follows it. */
  lemma FirstPieceOfAppend(s: string, t: string, escaping: bool)
    requires s != [] && Complete(s)
    ensures FirstPiece(s + t) == FirstPiece(s) && AfterFirstPiece(s + t) == AfterFirstPiece(s) + t
    ensures Complete(AfterFirstPiece(s)) && |AfterFirstPiece(s)| < |s|
    ensures EscapingAfter(s, escaping) == EscapingAfter(AfterFirstPiece(s), Quoted(FirstPiece(s)))
  {
    var u := s + t;
    assert u[0] == s[0];
    if s[0] != Backslash {
      assert u[1..] == s[1..] + t;
    } else {
      assert u[1] == s[1] && u[2..] == s[2..] + t;
    }
  }

  /** A backslash-free `s` has a backslash-free tail. */
  lemma NoBackslashTail(s: string)
    requires s != [] && Backslash !in s
    ensures s[0] != Backslash && Backslash !in s[1..]
  {
    forall k | 0 <= k < |s[1..]| ensures s[1..][k] != Backslash {
      assert s[1..][k] == s[k + 1];
    }
  }

  /**
   * Without backslashes the output is the in-order concatenation of the
   * characters' images, preceded by one closing quote when a run was open.
   */
  lemma {:induction false} NoBackslash(image: char -> string, s: string, escaping: bool)
    requires Backslash !in s
    ensures Scan(image, s, escaping) == (if escaping && s != [] then [Quote] else "") + ImageAll(image, s)
    decreases |s|
  {
    if s != [] {
      var mark := if escaping then [Quote] else "";
      NoBackslashTail(s);
      assert Scan(image, s, escaping) == mark + image(s[0]) + Scan(image, s[1..], false);
      assert Scan(image, s[1..], false) == ImageAll(image, s[1..]) by {
        NoBackslash(image, s[1..], false);
      }
      Assoc(mark, image(s[0]), ImageAll(image, s[1..]));
    }
  }

  /** A backslash-free pattern is complete, and after a non-empty one no run is open. */
  lemma {:induction false} NoBackslashState(s: string, escaping: bool)
    requires Backslash !in s
    ensures Complete(s)
    ensures EscapingAfter(s, escaping) == (escaping && s == [])
    decreases |s|
  {
    if s != [] {
      NoBackslashTail(s);
      NoBackslashState(s[1..], false);
    }
  }

  /**
   * Consecutive escaped characters form one run: one opening quote when no
   * run was open, none between the literals, and the run is still open at
   * the end. The escaped characters are copied, never passed to the table.
   */
  lemma {:induction false} ScanEscapeAll(image: char -> string, lits: string, escaping: bool)
    requires lits != []
    ensures Scan(image, EscapeAll(lits), escaping) == (if escaping then "" else [Quote]) + lits
    ensures Complete(EscapeAll(lits)) && EscapingAfter(EscapeAll(lits), escaping)
    decreases |lits|
  {
    var e := EscapeAll(lits);
    var tail := EscapeAll(lits[1..]);
    assert e == [Backslash, lits[0]] + tail;
    assert e[0] == Backslash && e[1] == lits[0] && e[2..] == tail;
    if lits[1..] == [] {
      assert lits == [lits[0]];
    } else {
      ScanEscapeAll(image, lits[1..], true);
      assert lits == [lits[0]] + lits[1..];
    }
  }

  /** An escaped run inside a longer pattern: the scanner resumes after it with the run open. */
  lemma EscapedRun(image: char -> string, lits: string, rest: string, escaping: bool)
    requires lits != []
    ensures Scan(image, EscapeAll(lits) + rest, escaping) ==
      (if escaping then "" else [Quote]) + lits + Scan(image, rest, true)
  {
    ScanEscapeAll(image, lits, escaping);
    ScanAppend(image, EscapeAll(lits), rest, escaping);
  }

  /** The first unescaped character after a run closes it with one quote. */
  lemma CloseRun(image: char -> string, c: char, rest: string)
    requires c != Backslash
    ensures Scan(image, [c] + rest, true) == [Quote] + image(c) + Scan(image, rest, false)
  {
    assert ([c] + rest)[1..] == rest;
  }

  /**
   * A run of escaped characters followed by an ordinary one becomes a single
   * quoted literal followed by that character's image; afterwards the scanner
   * is no longer escaping.
   */
  lemma QuotedRun(image: char -> string, lits: string, c: char, rest: string)
    requires lits != [] && c != Backslash
    ensures Scan(image, EscapeAll(lits) + [c] + rest, false) ==
      [Quote] + lits + [Quote] + image(c) + Scan(image, rest, false)
  {
    assert EscapeAll(lits) + [c] + rest == EscapeAll(lits) + ([c] + rest);
    EscapedRun(image, lits, [c] + rest, false);
    CloseRun(image, c, rest);
  }

  /**
   * A pattern ending inside a literal run gets no closing quote: the run
   * adds its opening quote, if one is needed, and its literals, and nothing
   * after them.
   */
  lemma EndsInsideRun(image: char -> string, s: string, lits: string)
    requires Complete(s) && lits != []
    ensures Scan(image, s + EscapeAll(lits), false) ==
      Scan(image, s, false) + (if EscapingAfter(s, false) then "" else [Quote]) + lits
  {
    ScanAppend(image, s, EscapeAll(lits), false);
    ScanEscapeAll(image, lits, EscapingAfter(s, false));
  }

  /**
   * A backslash at the very end escapes the empty string read past the end:
   * it opens a run (a lone quote) when none was open and adds nothing otherwise.
   */
  lemma TrailingBackslash(image: char -> string, s: string)
    requires Complete(s)
    ensures Scan(image, s + [Backslash], false) ==
      Scan(image, s, false) + (if EscapingAfter(s, false) then "" else [Quote])
  {
    ScanAppend(image, s, [Backslash], false);
  }

  // ---------------------------------------------------------------------
  // An independent reading: the input as pieces, the output piece by piece

  /**
   * One lexical piece of a PHP pattern: an unescaped character, a character
   * escaped by a backslash, or a final backslash with nothing after it.
   */
  datatype Piece = Token(c: char) | Escaped(c: char) | DanglingEscape

  /** The pattern text of a piece. */
  function Source(p: Piece): string
  {
    match p
    case Token(c) => [c]
    case Escaped(c) => [Backslash, c]
    case DanglingEscape => [Backslash]
  }

  /** Pieces read back as a pattern. */
  function Unlex(ps: seq<Piece>): string
  {
    if ps == [] then "" else Source(ps[0]) + Unlex(ps[1..])
  }

  /** The first piece of a non-empty pattern. */
  function FirstPiece(s: string): Piece
    requires s != []
  {
    if s[0] != Backslash then Token(s[0])
    else if |s| == 1 then DanglingEscape
    else Escaped(s[1])
  }

  /** What follows the first piece of a non-empty pattern. */
  function AfterFirstPiece(s: string): string
    requires s != []
  {
    if s[0] != Backslash then s[1..]
    else if |s| == 1 then ""
    else s[2..]
  }

  /** A pattern cut into pieces. */
  function Lex(s: string): seq<Piece>
    decreases |s|
  {
    if s == [] then [] else [FirstPiece(s)] + Lex(AfterFirstPiece(s))
  }

  /** Pieces some pattern cuts into: no token is a backslash, and a dangling escape comes last. */
  predicate WellFormed(ps: seq<Piece>)
  {
    forall i | 0 <= i < |ps| ::
      (ps[i].Token? ==> ps[i].c != Backslash) && (ps[i].DanglingEscape? ==> i == |ps| - 1)
  }

  /** Prefixing a piece that may start a pattern keeps the list well-formed. */
  lemma WellFormedCons(p: Piece, ps: seq<Piece>)
    requires WellFormed(ps) && (p.Token? ==> p.c != Backslash) && (p.DanglingEscape? ==> ps == [])
    ensures WellFormed([p] + ps)
  {
    var qs := [p] + ps;
    forall i | 0 < i < |qs| ensures qs[i] == ps[i - 1] { }
  }

  /** Cutting a pattern into pieces loses nothing, and yields well-formed pieces. */
  lemma {:induction false} LexRoundTrip(s: string)
    ensures WellFormed(Lex(s))
    ensures Unlex(Lex(s)) == s
    decreases |s|
  {
    if s != [] {
      var p, rest := FirstPiece(s), AfterFirstPiece(s);
      LexRoundTrip(rest);
      assert Lex(s) == [p] + Lex(rest);
      WellFormedCons(p, Lex(rest));
      assert ([p] + Lex(rest))[1..] == Lex(rest);
      assert s == Source(p) + rest;
    }
  }

  /** Every well-formed list of pieces is what its own text cuts into. */
  lemma {:induction false} UnlexRoundTrip(ps: seq<Piece>)
    requires WellFormed(ps)
    ensures Lex(Unlex(ps)) == ps
    decreases |ps|
  {
    if ps != [] {
      var tail := ps[1..];
      assert WellFormed(tail) by {
        forall i | 0 <= i < |tail|
          ensures (tail[i].Token? ==> tail[i].c != Backslash) && (tail[i].DanglingEscape? ==> i == |tail| - 1)
        {
          assert tail[i] == ps[i + 1];
        }
      }
      UnlexRoundTrip(tail);
      var u := Unlex(ps);
      assert u == Source(ps[0]) + Unlex(tail);
      match ps[0]
      case Token(c) =>
        assert u[1..] == Unlex(tail);
      case Escaped(c) =>
        assert u[2..] == Unlex(tail);
      case DanglingEscape =>
        assert tail == [];
    }
    assert ps == [] || ps == [ps[0]] + ps[1..];
  }

  /** Whether a piece stands inside a literal run of the output. */
  predicate Quoted(p: Piece)
  {
    !p.Token?
  }

  /** Whether the last of `ps` stands inside a literal run. */
  predicate EndsQuoted(ps: seq<Piece>)
  {
    ps != [] && Quoted(ps[|ps| - 1])
  }

  /** The quote a piece emits: one exactly when it is quoted and its predecessor is not, or the reverse. */
  function Mark(before: bool, p: Piece): string
  {
    if Quoted(p) != before then [Quote] else ""
  }

  /** What a piece contributes besides quotes. */
  function Content(image: char -> string, p: Piece): string
  {
    match p
    case Token(c) => image(c)
    case Escaped(c) => [c]
    case DanglingEscape => ""
  }

  /**
   * The output, read piece by piece from the end: each piece emits its mark
   * (before the first piece nothing is quoted), then its content.
   */
  function Render(image: char -> string, ps: seq<Piece>): string
  {
    if ps == [] then ""
    else Render(image, ps[..|ps| - 1]) + Mark(EndsQuoted(ps[..|ps| - 1]), ps[|ps| - 1]) + Content(image, ps[|ps| - 1])
  }

  /** Rendering one more piece. */
  lemma RenderSnoc(image: char -> string, pre: seq<Piece>, p: Piece)
    ensures Render(image, pre + [p]) == Render(image, pre) + Mark(EndsQuoted(pre), p) + Content(image, p)
    ensures EndsQuoted(pre + [p]) == Quoted(p)
  {
    var ps := pre + [p];
    assert ps[..|ps| - 1] == pre;
  }

  /** One scanner step is one piece: its mark, its content, and the state it leaves. */
  lemma ScanStep(image: char -> string, s: string, escaping: bool)
    requires s != []
    ensures Scan(image, s, escaping) ==
      Mark(escaping, FirstPiece(s)) + Content(image, FirstPiece(s)) + Scan(image, AfterFirstPiece(s), Quoted(FirstPiece(s)))
  {
  }

  /** Rendering a prefix and then scanning the rest agree, the state being the prefix's last piece. */
  lemma {:induction false} RenderThenScan(image: char -> string, pre: seq<Piece>, s: string)
    ensures Render(image, pre + Lex(s)) == Render(image, pre) + Scan(image, s, EndsQuoted(pre))
    decreases |s|
  {
    if s == [] {
      assert pre + [] == pre;
    } else {
      var p, rest := FirstPiece(s), AfterFirstPiece(s);
      var head, mark, content := Render(image, pre), Mark(EndsQuoted(pre), p), Content(image, p);
      var tail := Scan(image, rest, Quoted(p));
      assert Render(image, pre + Lex(s)) == Render(image, pre + [p]) + tail by {
        LexStep(pre, s);
        RenderSnoc(image, pre, p);
        RenderThenScan(image, pre + [p], rest);
      }
      assert Render(image, pre + [p]) == head + mark + content by {
        RenderSnoc(image, pre, p);
      }
      assert Scan(image, s, EndsQuoted(pre)) == mark + content + tail by {
        ScanStep(image, s, EndsQuoted(pre));
      }
      Assoc(head + mark, content, tail);
      Assoc(head, mark, content + tail);
      Assoc(mark, content, tail);
    }
  }

  /** Cutting off the first piece of the pattern appended to a prefix. */
  lemma LexStep(pre: seq<Piece>, s: string)
    requires s != []
    ensures pre + Lex(s) == (pre + [FirstPiece(s)]) + Lex(AfterFirstPiece(s))
  {
  }

  /** The scanner emits exactly what the piece-by-piece reading says. */
  lemma ScanIsRender(image: char -> string, s: string)
    ensures Scan(image, s, false) == Render(image, Lex(s))
  {
    RenderThenScan(image, [], s);
    assert [] + Lex(s) == Lex(s);
  }

  // ---------------------------------------------------------------------
  // Worked examples

  /** The ISO-like pattern `Y-m-d` becomes `yy-mm-dd`. */
  lemma ExampleIsoDate()
    ensures DatepickerFormatOf("Y-m-d") == "yy-mm-dd"
  {
  }

  /** `\d` is the letter d, not the day token. */
  lemma ExampleEscapedDay()
    ensures DatepickerFormatOf("\\d") == "'d"
  {
  }

  /** `Y \a` ends inside a run: `yy 'a`, with no closing quote. */
  lemma ExampleOpenRunAtEnd()
    ensures DatepickerFormatOf("Y \\a") == "yy 'a"
  {
  }

  /** `\a\t d` keeps `at` in one run and closes it before the day token. */
  lemma ExampleSharedRun()
    ensures DatepickerFormatOf("\\a\\t d") == "'at' dd"
  {
  }

  /**
   * The pattern is PHP's byte string, one element per byte: escaping the
   * two-byte UTF-8 encoding of `é` escapes only its first byte, and the run
   * closes before the second.
   */
  lemma ExampleMultibyteEscape()
    ensures DatepickerFormatOf("\\\U{C3}\U{A9}") == "'\U{C3}'\U{A9}"
  {
  }

  /** A lone backslash yields a lone quote. */
  lemma ExampleLoneBackslash()
    ensures DatepickerFormatOf("\\") == "'"
  {
  }
}
