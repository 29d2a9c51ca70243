/**
 * The logical-line reader of the GNU assembler front end (`GasParser::next`
 * in Patcher/src/gas.rs and, with the same loop, in
 * Tools/Patcher/src/gasio/main.rs). It reads one physical line and strips
 * `#`/`@` line comments and block comments. A block comment is opened by a
 * slash and a star and closed by a star and a slash; while one is open, the
 * reader reads further physical lines. It then hands the resulting logical
 * line, with one line feed appended, to the statement parser.
 *
 * The reader is the remaining input text. The statement grammar is a
 * parameter (`parse`).
 */
module GasLines {
  import opened Wrappers

  /** The reader's remaining text and `line_index`, the number of physical lines read. */
  datatype Parser = Parser(input: string, lineIndex: nat)

  /** What assembling one logical line gives. */
  datatype Assembled =
    | AtEof
    | Logical(text: string, rest: string, lines: nat)
    | Unterminated(lines: nat)

  /** The source as written, or with the two repairs described in the README. */
  datatype Variant = AsWritten | Corrected

  predicate IsLineComment(c: char) {
    c == '#' || c == '@'
  }

  predicate NoNewline(s: string) {
    forall k :: 0 <= k < |s| ==> s[k] != '\n'
  }

  predicate NoLineComment(s: string) {
    forall k :: 0 <= k < |s| ==> !IsLineComment(s[k])
  }

  /** `s[k..]` starts with `a` followed by `b`. */
  predicate PairAt(s: string, k: int, a: char, b: char) {
    0 <= k && k + 1 < |s| && s[k] == a && s[k + 1] == b
  }

  /** `s[k..]` starts with a comment opener. */
  predicate OpensAt(s: string, k: int) {
    PairAt(s, k, '/', '*')
  }

  /** `s[k..]` starts with a comment terminator. */
  predicate ClosesAt(s: string, k: int) {
    PairAt(s, k, '*', '/')
  }

  // ---------------------------------------------------------------------------
  // The string searches of the source

  /** `s.find(&['#', '@'][..])`. */
  function FindLineComment(s: string): (r: Option<nat>)
    ensures r.Some? ==> r.value < |s| && IsLineComment(s[r.value])
  {
    if s == [] then None
    else if IsLineComment(s[0]) then Some(0)
    else match FindLineComment(s[1..])
      case Some(i) => Some(i + 1)
      case None => None
  }

  /** The line comment found is the first. */
  lemma {:induction false} LineCommentFirst(s: string)
    ensures var r := FindLineComment(s);
            forall k :: 0 <= k < |s| && (r.None? || k < r.value) ==> !IsLineComment(s[k])
  {
    if s != [] && !IsLineComment(s[0]) {
      LineCommentFirst(s[1..]);
      var r := FindLineComment(s);
      forall k | 1 <= k < |s| && (r.None? || k < r.value)
        ensures !IsLineComment(s[k])
      {
        assert s[k] == s[1..][k - 1];
      }
    }
  }

  /** `str::find` of a two-character pattern: the first place `a` is followed by `b`. */
  function FindPair(s: string, a: char, b: char): (r: Option<nat>)
    ensures r.Some? ==> PairAt(s, r.value, a, b)
  {
    if |s| < 2 then None
    else if s[0] == a && s[1] == b then Some(0)
    else match FindPair(s[1..], a, b)
      case Some(i) => Some(i + 1)
      case None => None
  }

  /** Moving one character into `s` moves every occurrence one place back. */
  lemma PairShift(s: string, k: int, a: char, b: char)
    requires s != [] && 0 <= k
    ensures PairAt(s[1..], k, a, b) == PairAt(s, k + 1, a, b)
  {
    if k + 2 < |s| {
      assert s[1..][k] == s[k + 1] && s[1..][k + 1] == s[k + 2];
    }
  }

  /** An occurrence inside `s` stays one after anything is appended. */
  lemma PairPrefix(s: string, w: string, k: int, a: char, b: char)
    requires 0 <= k && k + 1 < |s|
    ensures PairAt(s + w, k, a, b) == PairAt(s, k, a, b)
  {
    assert (s + w)[k] == s[k] && (s + w)[k + 1] == s[k + 1];
  }

  /** The pattern found is the first occurrence. */
  lemma {:induction false} PairFirst(s: string, a: char, b: char)
    ensures var r := FindPair(s, a, b);
            forall k :: 0 <= k < |s| && (r.None? || k < r.value) ==> !PairAt(s, k, a, b)
  {
    if |s| >= 2 && !(s[0] == a && s[1] == b) {
      PairFirst(s[1..], a, b);
      var r := FindPair(s, a, b);
      forall k | 1 <= k < |s| && (r.None? || k < r.value)
        ensures !PairAt(s, k, a, b)
      {
        PairShift(s, k - 1, a, b);
      }
    }
  }

  /** The smaller of two optional positions (`filter_map(..).min()`). */
  function Min(a: Option<nat>, b: Option<nat>): (r: Option<nat>)
    ensures r.None? <==> a.None? && b.None?
    ensures r.Some? ==> (r == a || r == b) && (a.Some? ==> r.value <= a.value) &&
                        (b.Some? ==> r.value <= b.value)
  {
    match (a, b)
    case (Some(x), Some(y)) => if x <= y then a else b
    case (Some(_), None) => a
    case (None, _) => b
  }

  function FindLineEnd(s: string): (r: Option<nat>)
    ensures r.Some? ==> r.value < |s| && s[r.value] == '\n' && NoNewline(s[..r.value])
    ensures r.None? ==> NoNewline(s)
  {
    if s == [] then None
    else if s[0] == '\n' then Some(0)
    else match FindLineEnd(s[1..])
      case Some(i) =>
        assert s[..i + 1] == [s[0]] + s[1..][..i];
        Some(i + 1)
      case None => None
  }

  /** `read_line`: up to and including the first line feed, or everything that is left. */
  function ReadLine(s: string): (r: (string, string))
    requires s != []
    ensures r.0 != [] && r.0 + r.1 == s
    ensures NoNewline(r.0[..|r.0| - 1])
    ensures r.0[|r.0| - 1] == '\n' || r.1 == []
  {
    match FindLineEnd(s)
    case Some(k) => (s[..k + 1], s[k + 1..])
    case None => (s, [])
  }

  /**
   * `line_buffer.pop()` after a read. As written it drops the last character
   * whatever it is; corrected, it drops only a line feed.
   */
  function Pop(v: Variant, line: string): (r: string)
    requires line != []
    ensures line[|line| - 1] == '\n' ==> r == line[..|line| - 1]
    ensures v == Corrected && line[|line| - 1] != '\n' ==> r == line
  {
    if v == Corrected && line[|line| - 1] != '\n' then line else line[..|line| - 1]
  }

  // ---------------------------------------------------------------------------
  // The source's loops
  //
  // `line_buffer` with its cursor `start` is kept as two strings: `done`, the
  // buffer before `start`, which is final, and `line`, the buffer from `start`
  // on, the rest of the current physical line. Truncating at `start + i`
  // keeps `line[..i]`, moving `start` by `i` moves `line[..i]` to `done`, and
  // `replace_range(start..start + j, "")` drops `line[..j]`.

  /** Where the outer loop finds the first comment character of `line`. */
  function FirstComment(line: string): (r: Option<nat>)
    ensures r.Some? ==> r.value < |line|
  {
    Min(FindLineComment(line), FindPair(line, '/', '*'))
  }

  /**
   * The outer loop of `next`. The first comment character decides: a line
   * comment truncates the line, a block comment enters `Inner`, and without
   * either the line is complete.
   */
  function Outer(v: Variant, done: string, line: string, input: string, idx: nat): Assembled
    decreases |input|, |line|, 1
  {
    match FirstComment(line)
    case None => Logical(done + line, input, idx)
    case Some(i) =>
      if IsLineComment(line[i]) then Logical(done + line[..i], input, idx)
      else Inner(v, done + line[..i], line[i..], input, idx, true)
  }

  /** Where the terminator is searched for: after the opener (corrected) or from it (as written). */
  function SearchFrom(v: Variant, first: bool): nat {
    if v == Corrected && first then 2 else 0
  }

  /**
   * The inner loop: `line` is the open comment, opener included on the first
   * round. The text up to the terminator is removed; if there is none, the
   * whole line is removed and the next one read.
   */
  function Inner(v: Variant, done: string, line: string, input: string, idx: nat, first: bool): Assembled
    requires first ==> |line| >= 2
    decreases |input|, |line|, 0
  {
    var from := SearchFrom(v, first);
    match FindPair(line[from..], '*', '/')
    case Some(x) => Outer(v, done, line[from + x + 2..], input, idx)
    case None =>
      if input == [] then Unterminated(idx)
      else
        var (next, rest) := ReadLine(input);
        Inner(v, done, Pop(v, next), rest, idx + 1, false)
  }

  /** The line assembly of `GasParser::next`, before the statement parser is called. */
  function Next(p: Parser, v: Variant): (r: Assembled)
    ensures p.input == [] ==> r == AtEof
  {
    if p.input == [] then AtEof
    else
      var (line, rest) := ReadLine(p.input);
      Outer(v, [], Pop(v, line), rest, p.lineIndex + 1)
  }

  // ---------------------------------------------------------------------------
  // The reference: comments stripped character by character

  /** `r` with `t` put in front of its text. */
  function Prepend(t: string, r: Assembled): Assembled {
    if r.Logical? then Logical(t + r.text, r.rest, r.lines) else r
  }

  /** The input after the current physical line. */
  function AfterLine(s: string): string {
    match FindLineEnd(s)
    case Some(k) => s[k + 1..]
    case None => []
  }

  /**
   * Scanning code: a line feed or the end of the input ends the logical
   * line, `#` or `@` skips the rest of the physical line, an opener starts
   * a comment. `n` counts the physical lines started.
   */
  function Code(s: string, n: nat): Assembled
    decreases |s|
  {
    if s == [] then Logical([], [], n)
    else if s[0] == '\n' then Logical([], s[1..], n)
    else if IsLineComment(s[0]) then Logical([], AfterLine(s), n)
    else if OpensAt(s, 0) then Comment(s[2..], n)
    else Prepend([s[0]], Code(s[1..], n))
  }

  /** Scanning a comment: a terminator resumes code; the end of the input leaves it open. */
  function Comment(s: string, n: nat): Assembled
    decreases |s|
  {
    if s == [] then Unterminated(n)
    else if ClosesAt(s, 0) then Code(s[2..], n)
    else if s[0] == '\n' then (if |s| == 1 then Unterminated(n) else Comment(s[1..], n + 1))
    else Comment(s[1..], n)
  }

  /** The logical line a comment-stripping reader takes from `p`. */
  function Reference(p: Parser): Assembled {
    if p.input == [] then AtEof else Code(p.input, p.lineIndex + 1)
  }

  // ---------------------------------------------------------------------------
  // The loops agree with the reference

  /** `s[k..]` starts with an opener followed by a slash. */
  predicate SlashOpenerAt(s: string, k: int) {
    OpensAt(s, k) && k + 2 < |s| && s[k + 2] == '/'
  }

  /**
   * Input on which the two flaws of the source cannot show: no opener followed
   * by a slash, and a final line feed.
   */
  predicate Clean(s: string) {
    (forall k :: 0 <= k < |s| ==> !SlashOpenerAt(s, k)) &&
    (s == [] || s[|s| - 1] == '\n')
  }

  lemma CleanSuffix(s: string, j: nat)
    requires Clean(s) && j <= |s|
    ensures Clean(s[j..])
  {
    var t := s[j..];
    forall k | 0 <= k < |t|
      ensures !SlashOpenerAt(t, k)
    {
      assert !SlashOpenerAt(s, j + k);
      if k + 2 < |t| {
        assert t[k] == s[j + k] && t[k + 1] == s[j + k + 1] && t[k + 2] == s[j + k + 2];
      }
    }
  }

  lemma PrependAssoc(a: string, b: string, r: Assembled)
    ensures Prepend(a, Prepend(b, r)) == Prepend(a + b, r)
  {
    if r.Logical? {
      assert a + (b + r.text) == a + b + r.text;
    }
  }

  /** Code without comment characters or line feeds, followed by `u`. */
  predicate Plain(t: string, u: string) {
    NoNewline(t) && NoLineComment(t) && forall k :: 0 <= k < |t| ==> !OpensAt(t + u, k)
  }

  /** Plain code passes through the scanner unchanged. */
  lemma {:induction false} CodeSkip(t: string, u: string, n: nat)
    requires Plain(t, u)
    ensures Code(t + u, n) == Prepend(t, Code(u, n))
    decreases |t|
  {
    if t == [] {
      assert t + u == u;
    } else {
      var s := t + u;
      assert s[0] == t[0] && !OpensAt(s, 0);
      assert s[1..] == t[1..] + u;
      forall k | 0 <= k < |t[1..]|
        ensures !OpensAt(t[1..] + u, k)
      {
        assert !OpensAt(s, k + 1);
        PairShift(s, k, '/', '*');
      }
      CodeSkip(t[1..], u, n);
      PrependAssoc([t[0]], t[1..], Code(u, n));
      assert [t[0]] + t[1..] == t;
    }
  }

  /** Comment text without a terminator or line feed is skipped. */
  lemma {:induction false} CommentSkip(t: string, u: string, n: nat)
    requires NoNewline(t) && forall k :: 0 <= k < |t| ==> !ClosesAt(t + u, k)
    ensures Comment(t + u, n) == Comment(u, n)
    decreases |t|
  {
    if t == [] {
      assert t + u == u;
    } else {
      var s := t + u;
      assert s[0] == t[0] && !ClosesAt(s, 0);
      assert s[1..] == t[1..] + u;
      forall k | 0 <= k < |t[1..]|
        ensures !ClosesAt(t[1..] + u, k)
      {
        assert !ClosesAt(s, k + 1);
        PairShift(s, k, '*', '/');
      }
      CommentSkip(t[1..], u, n);
    }
  }

  /** `nl` is the line feed the read removed, or nothing at the end of the input. */
  predicate LineEnd(nl: string, input: string) {
    nl == "\n" || (nl == [] && input == [])
  }

  /** What holds of a line holds of what is left of it. */
  lemma LineSuffix(v: Variant, line: string, j: nat, input: string, nl: string)
    requires j <= |line| && NoNewline(line)
    requires v == Corrected || Clean(line + nl + input)
    ensures NoNewline(line[j..])
    ensures v == Corrected || Clean(line[j..] + nl + input)
  {
    assert forall k :: 0 <= k < |line[j..]| ==> line[j..][k] == line[j + k];
    if v == AsWritten {
      assert line[j..] + nl + input == (line + nl + input)[j..];
      CleanSuffix(line + nl + input, j);
    }
  }

  /** No occurrence of a pair straddles the end of a physical line. */
  lemma NoPairAcrossEnd(t: string, nl: string, input: string, a: char, b: char)
    requires LineEnd(nl, input) && b != '\n'
    requires forall k :: 0 <= k < |t| ==> !PairAt(t, k, a, b)
    ensures forall k :: 0 <= k < |t| ==> !PairAt(t + (nl + input), k, a, b)
  {
    forall k | 0 <= k < |t|
      ensures !PairAt(t + (nl + input), k, a, b)
    {
      if k + 1 < |t| {
        PairPrefix(t, nl + input, k, a, b);
      } else if nl != [] {
        assert (t + (nl + input))[k + 1] == '\n';
      }
    }
  }

  /** A line without comment characters is code up to its line feed. */
  lemma CodePlain(line: string, input: string, idx: nat, nl: string)
    requires NoNewline(line) && LineEnd(nl, input) && FirstComment(line).None?
    ensures Code(line + nl + input, idx) == Logical(line, input, idx)
  {
    assert line + nl + input == line + (nl + input);
    LineCommentFirst(line);
    PairFirst(line, '/', '*');
    NoPairAcrossEnd(line, nl, input, '/', '*');
    CodeSkip(line, nl + input, idx);
    assert Code(nl + input, idx) == Logical([], input, idx);
    assert line + [] == line;
  }

  /** Up to its first comment character, a line is code. */
  lemma CodeUpTo(line: string, i: nat, input: string, idx: nat, nl: string)
    requires NoNewline(line) && FirstComment(line) == Some(i)
    ensures Code(line + nl + input, idx) == Prepend(line[..i], Code(line[i..] + nl + input, idx))
  {
    var t := line[..i];
    var u := line[i..] + nl + input;
    assert line + nl + input == t + u;
    LineCommentFirst(line);
    PairFirst(line, '/', '*');
    forall k | 0 <= k < |t|
      ensures !OpensAt(t + u, k)
    {
      assert !PairAt(line, k, '/', '*');
      PairPrefix(line, nl + input, k, '/', '*');
      assert line + (nl + input) == t + u;
    }
    assert forall k :: 0 <= k < |t| ==> t[k] == line[k];
    CodeSkip(t, u, idx);
  }

  /** The rest of a line comment reaches to the line feed. */
  lemma AfterLineSkip(t: string, nl: string, input: string)
    requires NoNewline(t) && LineEnd(nl, input)
    ensures AfterLine(t + nl + input) == input
  {
    var s := t + nl + input;
    if nl == [] {
      assert s == t;
    } else {
      LineEndAt(t, input);
      assert s[|t| + 1..] == input;
    }
  }

  /** The first line feed after text without one is the one that follows it. */
  lemma LineEndAt(t: string, u: string)
    requires NoNewline(t)
    ensures FindLineEnd(t + "\n" + u) == Some(|t|)
  {
    var s := t + "\n" + u;
    assert s[|t|] == '\n';
    var k := FindLineEnd(s).value;
    assert forall j :: 0 <= j < |t| ==> s[j] == t[j];
    assert forall j :: 0 <= j < k ==> s[j] == s[..k][j];
  }

  /** A line comment ends the logical line. */
  lemma CodeCut(line: string, input: string, idx: nat, nl: string)
    requires line != [] && NoNewline(line) && LineEnd(nl, input) && IsLineComment(line[0])
    ensures Code(line + nl + input, idx) == Logical([], input, idx)
  {
    assert (line + nl + input)[0] == line[0];
    AfterLineSkip(line, nl, input);
  }

  /** A comment opener switches the scanner to the comment. */
  lemma CodeOpens(line: string, input: string, idx: nat, nl: string)
    requires |line| >= 2 && line[0] == '/' && line[1] == '*'
    ensures Code(line + nl + input, idx) == Comment(line[2..] + nl + input, idx)
  {
    var u := line + nl + input;
    assert u[0] == '/' && u[1] == '*';
    assert u[2..] == line[2..] + nl + input;
  }

  /** The outer loop, one step: no comment character. */
  lemma OuterPlain(v: Variant, done: string, line: string, input: string, idx: nat)
    requires FirstComment(line).None?
    ensures Outer(v, done, line, input, idx) == Logical(done + line, input, idx)
  {
  }

  /** The outer loop, one step: a line comment. */
  lemma OuterCut(v: Variant, done: string, line: string, i: nat, input: string, idx: nat)
    requires FirstComment(line) == Some(i) && IsLineComment(line[i])
    ensures Outer(v, done, line, input, idx) == Logical(done + line[..i], input, idx)
  {
  }

  /** The outer loop, one step: an opener hands over to the inner loop. */
  lemma OuterEnters(v: Variant, done: string, line: string, i: nat, input: string, idx: nat)
    requires FirstComment(line) == Some(i) && !IsLineComment(line[i])
    ensures i + 2 <= |line| && line[i] == '/' && line[i + 1] == '*'
    ensures Outer(v, done, line, input, idx) == Inner(v, done + line[..i], line[i..], input, idx, true)
  {
  }

  /**
   * The outer loop computes what the reference scanner makes of the rest of
   * the physical line (`line`, its line feed `nl`, and the input after it),
   * after the final part `done`.
   */
  lemma {:induction false} OuterMatches(v: Variant, done: string, line: string, input: string, idx: nat, nl: string)
    requires NoNewline(line) && LineEnd(nl, input)
    requires v == Corrected || Clean(line + nl + input)
    ensures Outer(v, done, line, input, idx) == Prepend(done, Code(line + nl + input, idx))
    decreases |input|, |line| + 1, 1
  {
    match FirstComment(line)
    case None =>
      OuterPlain(v, done, line, input, idx);
      CodePlain(line, input, idx, nl);
    case Some(i) =>
      CodeUpTo(line, i, input, idx, nl);
      LineSuffix(v, line, i, input, nl);
      PrependAssoc(done, line[..i], Code(line[i..] + nl + input, idx));
      if IsLineComment(line[i]) {
        OuterCut(v, done, line, i, input, idx);
        CodeCut(line[i..], input, idx, nl);
        assert done + line[..i] + [] == done + line[..i];
      } else {
        OuterEnters(v, done, line, i, input, idx);
        CodeOpens(line[i..], input, idx, nl);
        InnerMatches(v, done + line[..i], line[i..], input, idx, true, nl);
      }
  }

  /** Where the reference scans the open comment: after the opener on the first round. */
  /** One round of the inner loop, spelled out: the terminator is on this line. */
  lemma InnerUnfoldFound(v: Variant, done: string, line: string, input: string, idx: nat, first: bool)
    requires first ==> |line| >= 2
    requires FindPair(line[SearchFrom(v, first)..], '*', '/').Some?
    ensures var from := SearchFrom(v, first);
            var x := FindPair(line[from..], '*', '/').value;
            from + x + 2 <= |line| &&
            Inner(v, done, line, input, idx, first) == Outer(v, done, line[from + x + 2..], input, idx)
  {
  }

  /** One round of the inner loop, spelled out: no terminator on this line. */
  lemma InnerUnfoldMissing(v: Variant, done: string, line: string, input: string, idx: nat, first: bool)
    requires first ==> |line| >= 2
    requires FindPair(line[SearchFrom(v, first)..], '*', '/').None?
    ensures input == [] ==> Inner(v, done, line, input, idx, first) == Unterminated(idx)
    ensures input != [] ==>
              Inner(v, done, line, input, idx, first) ==
              Inner(v, done, Pop(v, ReadLine(input).0), ReadLine(input).1, idx + 1, false)
  {
  }

  function CommentFrom(first: bool): nat {
    if first then 2 else 0
  }

  /**
   * As written, the terminator is searched for from the opener itself; that
   * finds the same place as searching after it unless a slash follows the
   * opener.
   */
  lemma SearchAligned(v: Variant, line: string, first: bool, nl: string, input: string)
    requires first ==> |line| >= 2 && line[0] == '/' && line[1] == '*'
    requires v == Corrected || Clean(line + nl + input)
    ensures var from := SearchFrom(v, first);
            var c := CommentFrom(first);
            var y := FindPair(line[c..], '*', '/');
            c >= from && c <= |line| &&
            FindPair(line[from..], '*', '/') == (if y.Some? then Some(y.value + c - from) else None)
  {
    if v == AsWritten && first {
      if |line| > 2 {
        assert (line + nl + input)[2] == line[2] && (line + nl + input)[0] == '/' && (line + nl + input)[1] == '*';
        assert !SlashOpenerAt(line + nl + input, 0);
      }
      assert line[0..] == line && line[1..][1..] == line[2..];
    }
  }

  /** The inner loop, one step: the terminator is found. */
  lemma InnerFound(v: Variant, done: string, line: string, input: string, idx: nat, first: bool, nl: string, x: nat)
    requires first ==> |line| >= 2 && line[0] == '/' && line[1] == '*'
    requires v == Corrected || Clean(line + nl + input)
    requires CommentFrom(first) <= |line| && FindPair(line[CommentFrom(first)..], '*', '/') == Some(x)
    ensures CommentFrom(first) + x + 2 <= |line|
    ensures Inner(v, done, line, input, idx, first) == Outer(v, done, line[CommentFrom(first) + x + 2..], input, idx)
  {
    SearchAligned(v, line, first, nl, input);
    var from := SearchFrom(v, first);
    var x' := x + CommentFrom(first) - from;
    assert FindPair(line[from..], '*', '/') == Some(x');
    assert from + x' + 2 == CommentFrom(first) + x + 2;
    assert Inner(v, done, line, input, idx, first) == Outer(v, done, line[from + x' + 2..], input, idx) by {
      InnerUnfoldFound(v, done, line, input, idx, first);
    }
  }

  /** The inner loop, one step: no terminator on this line. */
  lemma InnerNotFound(v: Variant, done: string, line: string, input: string, idx: nat, first: bool, nl: string)
    requires first ==> |line| >= 2 && line[0] == '/' && line[1] == '*'
    requires v == Corrected || Clean(line + nl + input)
    requires CommentFrom(first) <= |line| && FindPair(line[CommentFrom(first)..], '*', '/').None?
    ensures input == [] ==> Inner(v, done, line, input, idx, first) == Unterminated(idx)
    ensures input != [] ==>
              var (next, rest) := ReadLine(input);
              Inner(v, done, line, input, idx, first) == Inner(v, done, Pop(v, next), rest, idx + 1, false)
  {
    SearchAligned(v, line, first, nl, input);
    InnerUnfoldMissing(v, done, line, input, idx, first);
  }

  /** A comment closed on this line: the reference resumes code after the terminator. */
  lemma CommentCloses(t: string, x: nat, input: string, idx: nat, nl: string)
    requires NoNewline(t) && FindPair(t, '*', '/') == Some(x)
    ensures x + 2 <= |t|
    ensures Comment(t + nl + input, idx) == Code(t[x + 2..] + nl + input, idx)
  {
    var w := t[x..] + nl + input;
    assert t + nl + input == t[..x] + w;
    PairFirst(t, '*', '/');
    forall k | 0 <= k < |t[..x]|
      ensures !ClosesAt(t[..x] + w, k)
    {
      assert !PairAt(t, k, '*', '/');
      PairPrefix(t, nl + input, k, '*', '/');
      assert t + (nl + input) == t[..x] + w;
    }
    assert forall k :: 0 <= k < |t[..x]| ==> t[..x][k] == t[k];
    CommentSkip(t[..x], w, idx);
    assert w[0] == '*' && w[1] == '/';
    assert w[2..] == t[x + 2..] + nl + input;
  }

  /** A comment still open at the end of the line: the reference skips the line. */
  lemma CommentRunsOn(t: string, input: string, idx: nat, nl: string)
    requires NoNewline(t) && LineEnd(nl, input) && FindPair(t, '*', '/').None?
    ensures Comment(t + nl + input, idx) == if input == [] then Unterminated(idx) else Comment(input, idx + 1)
  {
    assert t + nl + input == t + (nl + input);
    PairFirst(t, '*', '/');
    NoPairAcrossEnd(t, nl, input, '*', '/');
    CommentSkip(t, nl + input, idx);
    if nl != [] {
      assert (nl + input)[1..] == input;
    }
  }

  /**
   * The inner loop computes what the reference scanner makes of the open
   * comment, after the final part `done`.
   */
  lemma {:induction false} InnerMatches(v: Variant, done: string, line: string, input: string, idx: nat, first: bool, nl: string)
    requires NoNewline(line) && LineEnd(nl, input)
    requires first ==> |line| >= 2 && line[0] == '/' && line[1] == '*'
    requires v == Corrected || Clean(line + nl + input)
    ensures Inner(v, done, line, input, idx, first) == Prepend(done, Comment(line[CommentFrom(first)..] + nl + input, idx))
    decreases |input|, |line| + 1, 0
  {
    var c := CommentFrom(first);
    LineSuffix(v, line, c, input, nl);
    match FindPair(line[c..], '*', '/')
    case Some(x) =>
      LineSuffix(v, line, c + x + 2, input, nl);
      OuterMatches(v, done, line[c + x + 2..], input, idx, nl);
      InnerClosesOnLine(v, done, line, input, idx, first, nl, x);
    case None =>
      if input != [] {
        CleanAfterLine(v, line[c..], nl, input);
        NextLine(v, done, input, idx);
      }
      InnerRunsOn(v, done, line, input, idx, first, nl);
  }

  /** The input after a clean line is clean. */
  lemma CleanAfterLine(v: Variant, t: string, nl: string, input: string)
    requires v == Corrected || Clean(t + nl + input)
    ensures v == Corrected || Clean(input)
  {
    if v == AsWritten {
      assert input == (t + nl + input)[|t + nl|..];
      CleanSuffix(t + nl + input, |t + nl|);
    }
  }

  /** A comment left open at the end of its line continues on the next one, or ends the input. */
  lemma InnerRunsOn(v: Variant, done: string, line: string, input: string, idx: nat, first: bool, nl: string)
    requires NoNewline(line) && LineEnd(nl, input)
    requires first ==> |line| >= 2 && line[0] == '/' && line[1] == '*'
    requires v == Corrected || Clean(line + nl + input)
    requires CommentFrom(first) <= |line| && FindPair(line[CommentFrom(first)..], '*', '/').None?
    requires input != [] ==>
               var (next, rest) := ReadLine(input);
               Inner(v, done, Pop(v, next), rest, idx + 1, false) == Prepend(done, Comment(input, idx + 1))
    ensures Inner(v, done, line, input, idx, first) == Prepend(done, Comment(line[CommentFrom(first)..] + nl + input, idx))
  {
    InnerNotFound(v, done, line, input, idx, first, nl);
    CommentRunsOn(line[CommentFrom(first)..], input, idx, nl);
  }

  /** A comment closed on its own line hands the rest of the line back to the code scanner. */
  lemma InnerClosesOnLine(v: Variant, done: string, line: string, input: string, idx: nat, first: bool, nl: string, x: nat)
    requires NoNewline(line)
    requires first ==> |line| >= 2 && line[0] == '/' && line[1] == '*'
    requires v == Corrected || Clean(line + nl + input)
    requires CommentFrom(first) + x + 2 <= |line| && FindPair(line[CommentFrom(first)..], '*', '/') == Some(x)
    requires var tail := line[CommentFrom(first) + x + 2..];
             Outer(v, done, tail, input, idx) == Prepend(done, Code(tail + nl + input, idx))
    ensures Inner(v, done, line, input, idx, first) == Prepend(done, Comment(line[CommentFrom(first)..] + nl + input, idx))
  {
    var c := CommentFrom(first);
    InnerFound(v, done, line, input, idx, first, nl, x);
    CommentCloses(line[c..], x, input, idx, nl);
    assert line[c..][x + 2..] == line[c + x + 2..];
  }

  /** The line feed a read line ends with, if any. */
  function Feed(line: string): string
    requires line != []
  {
    if line[|line| - 1] == '\n' then "\n" else []
  }

  /**
   * A read line, popped, is one physical line without its line feed; on
   * clean input, or corrected, nothing else is lost.
   */
  lemma FirstLine(v: Variant, input: string)
    requires input != [] && (v == Corrected || Clean(input))
    ensures var (line, rest) := ReadLine(input);
            NoNewline(Pop(v, line)) && LineEnd(Feed(line), rest) &&
            Pop(v, line) + Feed(line) + rest == input
  {
    var (line, rest) := ReadLine(input);
    if v == AsWritten {
      assert rest != [] ==> rest[|rest| - 1] == input[|input| - 1];
    }
    var p := Pop(v, line);
    assert p + Feed(line) == line;
    assert NoNewline(p) by {
      assert p == line[..|line| - 1] || (p == line && line[|line| - 1] != '\n');
    }
  }

  /** The inner loop reads the next line, which the reference reaches past the line feed. */
  lemma {:induction false} NextLine(v: Variant, done: string, input: string, idx: nat)
    requires input != [] && (v == Corrected || Clean(input))
    ensures var (next, rest) := ReadLine(input);
            Inner(v, done, Pop(v, next), rest, idx + 1, false) == Prepend(done, Comment(input, idx + 1))
    decreases |input|, 0, 0
  {
    var (next, rest) := ReadLine(input);
    FirstLine(v, input);
    assert Pop(v, next)[0..] == Pop(v, next);
    InnerMatches(v, done, Pop(v, next), rest, idx + 1, false, Feed(next));
  }

  /**
   * The corrected reader assembles exactly the reference's logical line; the
   * reader as written does too on clean input.
   */
  lemma NextMatchesReference(p: Parser, v: Variant)
    requires v == Corrected || Clean(p.input)
    ensures Next(p, v) == Reference(p)
  {
    if p.input != [] {
      var (line, rest) := ReadLine(p.input);
      var code := Code(p.input, p.lineIndex + 1);
      assert Outer(v, [], Pop(v, line), rest, p.lineIndex + 1) == Prepend([], code) by {
        FirstLine(v, p.input);
        OuterMatches(v, [], Pop(v, line), rest, p.lineIndex + 1, Feed(line));
      }
      assert Prepend([], code) == code;
      assert Next(p, v) == Outer(v, [], Pop(v, line), rest, p.lineIndex + 1) by {
        NextUnfold(p, v);
      }
    }
  }

  lemma NextUnfold(p: Parser, v: Variant)
    requires p.input != []
    ensures Next(p, v) == Outer(v, [], Pop(v, ReadLine(p.input).0), ReadLine(p.input).1, p.lineIndex + 1)
  {
  }

  // ---------------------------------------------------------------------------
  // Line numbers

  /** The number of line feeds in `s`. */
  function Newlines(s: string): nat {
    if s == [] then 0 else (if s[0] == '\n' then 1 else 0) + Newlines(s[1..])
  }

  /** The line feeds of `s` before its last character: the physical lines `s` runs on past its first. */
  function Breaks(s: string): nat {
    if s == [] then 0 else Newlines(s[..|s| - 1])
  }

  /** The number of physical lines `s` runs on. */
  function PhysicalLines(s: string): nat {
    if s == [] then 0 else 1 + Breaks(s)
  }

  lemma {:induction false} NewlinesAppend(a: string, b: string)
    ensures Newlines(a + b) == Newlines(a) + Newlines(b)
    decreases |a|
  {
    if a == [] {
      assert a + b == b;
    } else {
      assert (a + b)[1..] == a[1..] + b;
      NewlinesAppend(a[1..], b);
    }
  }

  lemma {:induction false} NewlinesNone(s: string)
    requires NoNewline(s)
    ensures Newlines(s) == 0
    decreases |s|
  {
    if s != [] {
      NewlinesNone(s[1..]);
    }
  }

  /** Text without a line feed in front of `c` adds no line. */
  lemma BreaksPrefix(a: string, c: string)
    requires NoNewline(a)
    ensures Breaks(a + c) == Breaks(c)
  {
    if c == [] {
      assert a + c == a;
      if a != [] {
        NewlinesNone(a[..|a| - 1]);
      }
    } else {
      assert (a + c)[..|a + c| - 1] == a + c[..|c| - 1];
      NewlinesAppend(a, c[..|c| - 1]);
      NewlinesNone(a);
    }
  }

  /** A line feed in front of a non-empty `c` adds one line. */
  lemma BreaksNewline(c: string)
    requires c != []
    ensures Breaks("\n" + c) == 1 + Breaks(c)
  {
    assert ("\n" + c)[..|c|] == "\n" + c[..|c| - 1];
    NewlinesAppend("\n", c[..|c| - 1]);
  }

  /**
   * The line count of what the scanner made of `s`, begun on line `n`: a
   * logical line has no line feed, was taken from the front of `s` (all of it
   * or a non-empty part when `s` is not empty), and ends on the line where
   * that part ends; an unterminated comment ends on the last line of `s`.
   */
  predicate Counted(s: string, n: nat, r: Assembled) {
    match r
    case AtEof => false
    case Logical(text, rest, lines) =>
      NoNewline(text) && |rest| <= |s| && s[|s| - |rest|..] == rest &&
      (s != [] ==> |rest| < |s|) && lines == n + Breaks(s[..|s| - |rest|])
    case Unterminated(lines) => lines == n + Breaks(s)
  }

  lemma NoNewlineAppend(a: string, b: string)
    requires NoNewline(a) && NoNewline(b)
    ensures NoNewline(a + b)
  {
    assert forall k :: 0 <= k < |a + b| ==> (a + b)[k] == (if k < |a| then a[k] else b[k - |a|]);
  }

  /** Taking text without a line feed off the front keeps the count. */
  lemma CountedCons(s: string, n: nat, r: Assembled, j: nat)
    requires 0 < j <= |s| && NoNewline(s[..j]) && Counted(s[j..], n, r)
    ensures Counted(s, n, r) && Counted(s, n, Prepend(s[..j], r))
  {
    if r.Logical? {
      CountedConsLogical(s, n, r, j);
    } else if r.Unterminated? {
      assert s == s[..j] + s[j..];
      BreaksPrefix(s[..j], s[j..]);
    }
  }

  lemma CountedConsLogical(s: string, n: nat, r: Assembled, j: nat)
    requires 0 < j <= |s| && NoNewline(s[..j]) && Counted(s[j..], n, r) && r.Logical?
    ensures Counted(s, n, r) && Counted(s, n, Prepend(s[..j], r))
  {
    var t := s[j..];
    var k := |s| - |r.rest|;
    assert s[k..] == t[|t| - |r.rest|..];
    assert s[..k] == s[..j] + t[..|t| - |r.rest|];
    BreaksPrefix(s[..j], t[..|t| - |r.rest|]);
    assert Counted(s, n, r);
    NoNewlineAppend(s[..j], r.text);
  }

  /** A line feed inside a comment, with more input after it, starts the next line. */
  lemma CountedNewline(s: string, n: nat, r: Assembled)
    requires |s| > 1 && s[0] == '\n' && Counted(s[1..], n + 1, r)
    ensures Counted(s, n, r)
  {
    BreaksNewline(s[1..]);
    if r.Logical? {
      assert s[|s| - |r.rest|..] == s[1..][|s| - 1 - |r.rest|..];
      assert s[..|s| - |r.rest|] == "\n" + s[1..][..|s| - 1 - |r.rest|];
      BreaksNewline(s[1..][..|s| - 1 - |r.rest|]);
    } else if r.Unterminated? {
      assert s == "\n" + s[1..];
    }
  }

  /** A logical line ended by a line feed or a line comment takes one physical line. */
  lemma CountedLineEnd(s: string, n: nat)
    requires s != [] && (s[0] == '\n' || IsLineComment(s[0]))
    ensures Counted(s, n, Code(s, n))
  {
    var r := Code(s, n);
    if s[0] == '\n' {
      assert s[..|s| - |r.rest|] == "\n";
    } else {
      match FindLineEnd(s)
      case Some(k) =>
        assert s[..|s| - |r.rest|] == s[..k + 1];
        assert s[..k + 1][..k] == s[..k];
        NewlinesNone(s[..k]);
      case None =>
        assert r.rest == [] && s[..|s| - |r.rest|] == s;
        assert forall k :: 0 <= k < |s| - 1 ==> s[..|s| - 1][k] == s[k];
        NewlinesNone(s[..|s| - 1]);
    }
  }

  /** The scanner counts lines as it goes: see `Counted`. */
  lemma {:induction false} CodeLines(s: string, n: nat)
    ensures Counted(s, n, Code(s, n))
    decreases |s|, 1
  {
    if s == [] {
    } else if s[0] == '\n' || IsLineComment(s[0]) {
      CountedLineEnd(s, n);
    } else if OpensAt(s, 0) {
      assert Code(s, n) == Comment(s[2..], n);
      CommentLines(s[2..], n);
      CountedCons(s, n, Comment(s[2..], n), 2);
    } else {
      assert s[..1] == [s[0]] && Code(s, n) == Prepend(s[..1], Code(s[1..], n));
      CodeLines(s[1..], n);
      CountedCons(s, n, Code(s[1..], n), 1);
    }
  }

  lemma {:induction false} CommentLines(s: string, n: nat)
    ensures Counted(s, n, Comment(s, n))
    decreases |s|, 0
  {
    if s == [] {
    } else if ClosesAt(s, 0) {
      CodeLines(s[2..], n);
      CountedCons(s, n, Code(s[2..], n), 2);
    } else if s[0] == '\n' {
      if |s| > 1 {
        assert Comment(s, n) == Comment(s[1..], n + 1);
        CommentLines(s[1..], n + 1);
        CountedNewline(s, n, Comment(s[1..], n + 1));
      }
    } else {
      CommentLines(s[1..], n);
      CountedCons(s, n, Comment(s[1..], n), 1);
    }
  }

  /**
   * The line index after a call counts the physical lines read: those the
   * logical line ran on, or all that were left for an unterminated comment.
   */
  lemma NextLines(p: Parser, v: Variant)
    requires v == Corrected || Clean(p.input)
    ensures var r := Next(p, v);
            (r.AtEof? <==> p.input == []) &&
            (r.Logical? ==>
               NoNewline(r.text) && |r.rest| < |p.input| && p.input[|p.input| - |r.rest|..] == r.rest &&
               r.lines == p.lineIndex + PhysicalLines(p.input[..|p.input| - |r.rest|])) &&
            (r.Unterminated? ==> r.lines == p.lineIndex + PhysicalLines(p.input))
  {
    var r := Next(p, v);
    assert r == Reference(p) by { NextMatchesReference(p, v); }
    if p.input != [] {
      assert Counted(p.input, p.lineIndex + 1, r) by { CodeLines(p.input, p.lineIndex + 1); }
    }
  }

  // ---------------------------------------------------------------------------
  // Progress, whatever the input

  /** What is left of the input after a logical line is a suffix of what was there. */
  predicate SuffixOf(rest: string, s: string) {
    |rest| <= |s| && s[|s| - |rest|..] == rest
  }

  /** The result of the loops: input consumed from the front, the line index never lowered. */
  predicate Advances(input: string, idx: nat, r: Assembled) {
    (r.Logical? ==> SuffixOf(r.rest, input) && r.lines >= idx) &&
    (r.Unterminated? ==> r.lines >= idx) &&
    !r.AtEof?
  }

  lemma ReadLineSuffix(s: string)
    requires s != []
    ensures |ReadLine(s).1| < |s| && SuffixOf(ReadLine(s).1, s)
  {
    var (line, rest) := ReadLine(s);
    assert s[|s| - |rest|..] == (line + rest)[|line|..];
  }

  lemma SuffixTrans(a: string, b: string, c: string)
    requires SuffixOf(a, b) && SuffixOf(b, c)
    ensures SuffixOf(a, c)
  {
    assert c[|c| - |a|..] == c[|c| - |b|..][|b| - |a|..];
  }

  lemma {:induction false} OuterAdvances(v: Variant, done: string, line: string, input: string, idx: nat)
    ensures Advances(input, idx, Outer(v, done, line, input, idx))
    decreases |input|, |line| + 1, 2
  {
    assert input[|input| - |input|..] == input;
    match FirstComment(line)
    case None =>
    case Some(i) =>
      if !IsLineComment(line[i]) {
        InnerAdvances(v, done + line[..i], line[i..], input, idx, true);
      }
  }

  lemma {:induction false} InnerAdvances(v: Variant, done: string, line: string, input: string, idx: nat, first: bool)
    requires first ==> |line| >= 2
    ensures Advances(input, idx, Inner(v, done, line, input, idx, first))
    decreases |input|, |line| + 1, 1
  {
    if FindPair(line[SearchFrom(v, first)..], '*', '/').Some? {
      InnerClosed(v, done, line, input, idx, first);
    } else if input != [] {
      InnerNextLine(v, done, line, input, idx, first);
    }
  }

  /** The terminator is on this line: the outer loop resumes after it. */
  lemma {:induction false} InnerClosed(v: Variant, done: string, line: string, input: string, idx: nat, first: bool)
    requires first ==> |line| >= 2
    requires FindPair(line[SearchFrom(v, first)..], '*', '/').Some?
    ensures Advances(input, idx, Inner(v, done, line, input, idx, first))
    decreases |input|, |line| + 1, 0
  {
    var from := SearchFrom(v, first);
    var x := FindPair(line[from..], '*', '/').value;
    InnerUnfoldFound(v, done, line, input, idx, first);
    OuterAdvances(v, done, line[from + x + 2..], input, idx);
  }

  /** No terminator on this line: the inner loop goes on with the next one. */
  lemma {:induction false} InnerNextLine(v: Variant, done: string, line: string, input: string, idx: nat, first: bool)
    requires first ==> |line| >= 2
    requires FindPair(line[SearchFrom(v, first)..], '*', '/').None? && input != []
    ensures Advances(input, idx, Inner(v, done, line, input, idx, first))
    decreases |input|, |line| + 1, 0
  {
    var (next, rest) := ReadLine(input);
    InnerUnfoldMissing(v, done, line, input, idx, first);
    InnerAdvances(v, done, Pop(v, next), rest, idx + 1, false);
    AdvancesPastLine(input, idx, Inner(v, done, Pop(v, next), rest, idx + 1, false));
  }

  /** What advances past the rest of the first line advances past the whole input. */
  lemma AdvancesPastLine(input: string, idx: nat, r: Assembled)
    requires input != [] && Advances(ReadLine(input).1, idx + 1, r)
    ensures Advances(input, idx, r)
  {
    ReadLineSuffix(input);
    if r.Logical? {
      SuffixTrans(r.rest, ReadLine(input).1, input);
    }
  }

  /** Every call that does not meet the end of the input consumes some of it. */
  lemma NextAdvances(p: Parser, v: Variant)
    ensures var r := Next(p, v);
            (r.AtEof? <==> p.input == []) &&
            (r.Logical? ==> |r.rest| < |p.input| && SuffixOf(r.rest, p.input) && r.lines > p.lineIndex) &&
            (r.Unterminated? ==> r.lines > p.lineIndex)
  {
    if p.input != [] {
      var (line, rest) := ReadLine(p.input);
      OuterAdvances(v, [], Pop(v, line), rest, p.lineIndex + 1);
      ReadLineSuffix(p.input);
      var r := Next(p, v);
      if r.Logical? {
        SuffixTrans(r.rest, rest, p.input);
      }
    }
  }

  // ---------------------------------------------------------------------------
  // Items and errors

  /** `GasParser::new`: nothing read yet. */
  function New(input: string): (p: Parser)
    ensures p.input == input && p.lineIndex == 0
  {
    Parser(input, 0)
  }

  /** `Item` of Patcher/src/gas.rs, over the statement type `S` of the grammar. */
  datatype Item<S> = Empty | Statement(statement: S)

  /** `Error::SyntaxError`; an I/O error of the reader is not modelled. */
  datatype Error = SyntaxError(message: string, line: nat)

  const UnterminatedMessage: string := "found a unterminated block comment"

  /** The parser's answer for the logical line, as the caller of `next` sees it. */
  function Classify<S>(res: Result<Option<S>, string>, line: nat): (r: Result<Option<Item<S>>, Error>)
    ensures r.Err? <==> res.Err?
    ensures res.Err? ==> r.error == SyntaxError(res.error, line)
    ensures res.Ok? ==> r.value.Some? && (r.value.value.Empty? <==> res.value.None?)
    ensures res.Ok? && res.value.Some? ==> r.value.value.statement == res.value.value
  {
    match res
    case Ok(Some(x)) => Ok(Some(Statement(x)))
    case Ok(None) => Ok(Some(Empty))
    case Err(m) => Err(SyntaxError(m, line))
  }

  /**
   * `GasParser::next` of Patcher/src/gas.rs: the next item and the parser
   * after it. `parse` is the statement grammar, called on the logical line
   * with a line feed appended.
   */
  function NextItem<S>(p: Parser, v: Variant, parse: string -> Result<Option<S>, string>)
    : (r: (Result<Option<Item<S>>, Error>, Parser))
    ensures p.input == [] <==> r.0 == Ok(None)
    ensures p.input == [] ==> r.1 == p
    ensures r.0.Err? ==> r.0.error.line == r.1.lineIndex
    ensures p.input != [] ==> |r.1.input| < |p.input| && SuffixOf(r.1.input, p.input) && r.1.lineIndex > p.lineIndex
  {
    NextAdvances(p, v);
    match Next(p, v)
    case AtEof => (Ok(None), p)
    case Unterminated(lines) => (Err(SyntaxError(UnterminatedMessage, lines)), Parser([], lines))
    case Logical(text, rest, lines) => (Classify(parse(text + "\n"), lines), Parser(rest, lines))
  }

  /**
   * `GasParser::next` of Tools/Patcher/src/gasio/main.rs: the same reader,
   * with a grammar that always yields a statement.
   */
  function NextStatement<S>(p: Parser, v: Variant, parse: string -> Result<S, string>)
    : (r: (Result<Option<S>, Error>, Parser))
    ensures p.input == [] <==> r.0 == Ok(None)
    ensures p.input == [] ==> r.1 == p
    ensures r.0.Err? ==> r.0.error.line == r.1.lineIndex
    ensures p.input != [] ==> |r.1.input| < |p.input| && SuffixOf(r.1.input, p.input) && r.1.lineIndex > p.lineIndex
  {
    NextAdvances(p, v);
    match Next(p, v)
    case AtEof => (Ok(None), p)
    case Unterminated(lines) => (Err(SyntaxError(UnterminatedMessage, lines)), Parser([], lines))
    case Logical(text, rest, lines) =>
      match parse(text + "\n")
      case Ok(x) => (Ok(Some(x)), Parser(rest, lines))
      case Err(m) => (Err(SyntaxError(m, lines)), Parser(rest, lines))
  }

  /**
   * What the grammar sees: one line feed, after the logical line the
   * reference scanner assembles, and the error line is the last physical
   * line read. An unterminated comment is reported on the last line of the
   * input.
   */
  lemma NextItemParses<S>(p: Parser, v: Variant, parse: string -> Result<Option<S>, string>)
    requires v == Corrected || Clean(p.input)
    ensures var (res, q) := NextItem(p, v, parse);
            var a := Reference(p);
            (a.Logical? ==>
               NoNewline(a.text) && res == Classify(parse(a.text + "\n"), q.lineIndex) &&
               q.input == a.rest &&
               q.lineIndex == p.lineIndex + PhysicalLines(p.input[..|p.input| - |q.input|])) &&
            (a.Unterminated? ==>
               res == Err(SyntaxError(UnterminatedMessage, q.lineIndex)) && q.input == [] &&
               q.lineIndex == p.lineIndex + PhysicalLines(p.input))
  {
    var r := Next(p, v);
    assert r == Reference(p) by { NextMatchesReference(p, v); }
    assert (r.Logical? ==> NoNewline(r.text) && r.lines == p.lineIndex + PhysicalLines(p.input[..|p.input| - |r.rest|]))
        && (r.Unterminated? ==> r.lines == p.lineIndex + PhysicalLines(p.input)) by {
      NextLines(p, v);
    }
    ItemOf(p, v, parse, r);
  }

  /** `NextItem` hands on what the scanner assembled. */
  lemma ItemOf<S>(p: Parser, v: Variant, parse: string -> Result<Option<S>, string>, r: Assembled)
    requires Next(p, v) == r
    ensures r.Logical? ==> NextItem(p, v, parse) == (Classify(parse(r.text + "\n"), r.lines), Parser(r.rest, r.lines))
    ensures r.Unterminated? ==> NextItem(p, v, parse) == (Err(SyntaxError(UnterminatedMessage, r.lines)), Parser([], r.lines))
  {
  }

  /** The same for the grammar of Tools/Patcher/src/gasio/main.rs. */
  lemma NextStatementParses<S>(p: Parser, v: Variant, parse: string -> Result<S, string>)
    requires v == Corrected || Clean(p.input)
    ensures var (res, q) := NextStatement(p, v, parse);
            var a := Reference(p);
            (a.Logical? ==>
               NoNewline(a.text) && q.input == a.rest &&
               q.lineIndex == p.lineIndex + PhysicalLines(p.input[..|p.input| - |q.input|]) &&
               (parse(a.text + "\n").Ok? ==> res == Ok(Some(parse(a.text + "\n").value))) &&
               (parse(a.text + "\n").Err? ==> res == Err(SyntaxError(parse(a.text + "\n").error, q.lineIndex)))) &&
            (a.Unterminated? ==>
               res == Err(SyntaxError(UnterminatedMessage, q.lineIndex)) && q.input == [] &&
               q.lineIndex == p.lineIndex + PhysicalLines(p.input))
  {
    var r := Next(p, v);
    assert r == Reference(p) by { NextMatchesReference(p, v); }
    if r.Logical? {
      LogicalStatement(p, v, parse, r);
    } else if r.Unterminated? {
      assert r.lines == p.lineIndex + PhysicalLines(p.input) by { NextLines(p, v); }
    }
  }

  /** A logical line is parsed, and the parser moves past the physical lines it spans. */
  lemma LogicalStatement<S>(p: Parser, v: Variant, parse: string -> Result<S, string>, r: Assembled)
    requires v == Corrected || Clean(p.input)
    requires Next(p, v) == r && r.Logical?
    ensures var (res, q) := NextStatement(p, v, parse);
            NoNewline(r.text) && q.input == r.rest &&
            q.lineIndex == p.lineIndex + PhysicalLines(p.input[..|p.input| - |q.input|]) &&
            (parse(r.text + "\n").Ok? ==> res == Ok(Some(parse(r.text + "\n").value))) &&
            (parse(r.text + "\n").Err? ==> res == Err(SyntaxError(parse(r.text + "\n").error, q.lineIndex)))
  {
    assert NoNewline(r.text) && r.lines == p.lineIndex + PhysicalLines(p.input[..|p.input| - |r.rest|]) by {
      NextLines(p, v);
    }
  }

  // ---------------------------------------------------------------------------
  // The two flaws of the loop as written

  /**
   * As written, the terminator search starts at the opener, so in a comment
   * opened by a slash, a star and a slash, the star of the opener and the
   * slash after it close the comment at once: the comment text and the real
   * terminator are handed to the grammar.
   */
  lemma SlashAfterOpener(input: string)
    requires input == "/*/a*/b\n"
    ensures Next(New(input), AsWritten) == Logical("a*/b", [], 1)
    ensures Next(New(input), Corrected) == Logical("b", [], 1)
  {
    var line := input[..7];
    assert line == "/*/a*/b" && input == line + "\n";
    OneLine(line, AsWritten);
    OneLine(line, Corrected);
    SlashAfterOpenerAsWritten(line);
    SlashAfterOpenerCorrected(line);
  }

  /** A single line with its line feed is handed to the outer loop without it, by either variant. */
  lemma OneLine(line: string, v: Variant)
    requires NoNewline(line)
    ensures Next(New(line + "\n"), v) == Outer(v, [], line, [], 1)
  {
    var input := line + "\n";
    ReadOneLine(line);
    assert Pop(v, input) == line;
    assert Next(New(input), v) == Outer(v, [], Pop(v, input), [], 1);
  }

  lemma ReadOneLine(line: string)
    requires NoNewline(line)
    ensures ReadLine(line + "\n") == (line + "\n", [])
    ensures (line + "\n")[..|line|] == line
  {
    var input := line + "\n";
    LineEndAt(line, []);
    assert line + "\n" + [] == input;
    assert input[..|line| + 1] == input && input[|line| + 1..] == [];
  }

  /** The first occurrence of a pair is found. */
  lemma PairIsFirst(s: string, k: nat, a: char, b: char)
    requires PairAt(s, k, a, b) && forall j :: 0 <= j < k ==> !PairAt(s, j, a, b)
    ensures FindPair(s, a, b) == Some(k)
  {
    PairFirst(s, a, b);
  }

  /** Text without comment characters has no first comment. */
  lemma NoComment(s: string)
    requires NoLineComment(s) && forall j :: 0 <= j < |s| ==> !OpensAt(s, j)
    ensures FirstComment(s) == None
  {
    var o := FindPair(s, '/', '*');
    assert o.Some? ==> OpensAt(s, o.value);
  }

  /** The line opens a comment at once. */
  lemma OpensFirst(v: Variant, line: string)
    requires line == "/*/a*/b"
    ensures Outer(v, [], line, [], 1) == Inner(v, [], line, [], 1, true)
  {
    PairIsFirst(line, 0, '/', '*');
    assert FindLineComment(line).Some? ==> FindLineComment(line).value >= 0;
    OuterEnters(v, [], line, 0, [], 1);
    assert line[0..] == line && [] + line[..0] == [];
  }

  lemma SlashAfterOpenerAsWritten(line: string)
    requires line == "/*/a*/b"
    ensures Outer(AsWritten, [], line, [], 1) == Logical("a*/b", [], 1)
  {
    OpensFirst(AsWritten, line);
    assert line[0..] == line;
    assert !PairAt(line, 0, '*', '/');
    PairIsFirst(line, 1, '*', '/');
    var t := line[3..];
    assert t == "a*/b";
    PlainTail(t);
    OuterPlain(AsWritten, [], t, [], 1);
  }

  /** Past the opener, the first terminator is the one after `a`. */
  lemma EarlyClose(u: string)
    requires u == "/a*/b"
    ensures FindPair(u, '*', '/') == Some(2)
  {
    assert !PairAt(u, 0, '*', '/') && !PairAt(u, 1, '*', '/');
    PairIsFirst(u, 2, '*', '/');
  }

  /** What follows the early close holds no comment. */
  lemma PlainTail(t: string)
    requires t == "a*/b"
    ensures FirstComment(t) == None
  {
    assert !OpensAt(t, 0) && !OpensAt(t, 1) && !OpensAt(t, 2);
    NoComment(t);
  }

  lemma SlashAfterOpenerCorrected(line: string)
    requires line == "/*/a*/b"
    ensures Outer(Corrected, [], line, [], 1) == Logical("b", [], 1)
  {
    OpensFirst(Corrected, line);
    var u := line[2..];
    assert u == "/a*/b";
    EarlyClose(u);
    var t := line[6..];
    assert t == "b";
    NoComment(t);
    OuterPlain(Corrected, [], t, [], 1);
  }

  /**
   * As written, the character popped after a read is dropped even when it
   * is not a line feed: a last line without one loses its last character.
   */
  lemma LastLineLosesCharacter(input: string)
    requires input == "nop"
    ensures Next(New(input), AsWritten) == Logical("no", [], 1)
    ensures Next(New(input), Corrected) == Logical("nop", [], 1)
  {
    assert FindLineEnd(input) == None;
    assert input[..2] == "no";
    assert FindLineComment("no") == None && FindPair("no", '/', '*') == None;
    assert FindLineComment(input) == None && FindPair(input, '/', '*') == None;
  }
}
