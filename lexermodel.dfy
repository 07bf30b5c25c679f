/**
 * The hand-written lexer of parse.cc as functions over its static state: the
 * allocation `inputBuffer` (all its bytes, `|buf|` being its capacity), the
 * number of valid bytes `inputBufferSize`, the read position
 * `inputBufferOffset`, the `mode`, and the bytes of the makefile that `fread`
 * has not delivered yet.  Each loop of the source is a tail-recursive function
 * here; the class in lexer.dfy runs the loops and is proved against these.
 *
 * Positions are taken as written: `newBufferOffset` is not moved when a refill
 * compacts the buffer, so the read position can pass `size`.  A read past the
 * allocation, or a `memmove` with a negative length, is undefined behaviour in
 * C and is the outcome `Undefined` here.
 */
module LexerModel {
  datatype Mode = Normal | Command

  /** What `yylex` returns: 0, a punctuation character, `ID` or `RULECOMMAND`. */
  datatype Token = EndOfInput | Punct(c: char) | Ident | RuleCommand

  datatype Lex = Lex(buf: seq<char>, size: nat, offset: nat, mode: Mode, rest: seq<char>)

  datatype Lexed = Lexed(token: Token, lex: Lex) | Undefined

  /** How many bytes a growing refill asks for (parse.cc:39, 44). */
  const Chunk: nat := 80

  /** The valid bytes lie inside the allocation; every operation keeps this. */
  predicate Sane(l: Lex)
  {
    l.size <= |l.buf|
  }

  /** The read position is inside the valid bytes. */
  predicate Positioned(l: Lex)
  {
    l.offset <= l.size
  }

  /** The buffered bytes not read yet, then the bytes still in the file. */
  function Unread(l: Lex): seq<char>
    requires Sane(l) && Positioned(l)
  {
    l.buf[l.offset..l.size] + l.rest
  }

  /** The state `parse_makefile` sets up before `yyparse` (parse.cc:180-184); malloc'ed bytes are taken as NUL. */
  function Initial(file: seq<char>): (l: Lex)
    ensures Sane(l) && Positioned(l) && Unread(l) == file
  {
    Lex(['\0'], 0, 0, Normal, file)
  }

  function Min(a: nat, b: nat): nat
  {
    if a <= b then a else b
  }

  /** `realloc(buf, n)`: the common prefix is kept; new bytes are taken as NUL. */
  function Resize(buf: seq<char>, n: nat): (r: seq<char>)
    ensures |r| == n
  {
    if n <= |buf| then buf[..n] else buf + seq(n - |buf|, _ => '\0')
  }

  /** Copy `data` into `buf` at `pos`, as `memmove` and `fread` do. */
  function Overwrite(buf: seq<char>, pos: nat, data: seq<char>): (r: seq<char>)
    requires pos + |data| <= |buf|
    ensures |r| == |buf|
  {
    buf[..pos] + data + buf[pos + |data|..]
  }

  /**
   * `refillBuffer`: with nothing consumed, reallocate to `size + 80` bytes and append
   * up to 80 bytes; otherwise move the unread bytes to the front and read up to
   * `offset` bytes behind them.  True iff some byte was read.  The source
   * demands `offset <= size`: otherwise the `memmove` length is negative.
   */
  function Refill(l: Lex): (r: (bool, Lex))
    requires Sane(l) && Positioned(l)
    ensures Sane(r.1) && r.1.offset == 0 && r.1.mode == l.mode
    ensures |r.1.rest| <= |l.rest| && (r.0 ==> |r.1.rest| < |l.rest| && 0 < r.1.size)
  {
    if l.offset == 0 then
      var grown := Resize(l.buf, l.size + Chunk);
      var k := Min(Chunk, |l.rest|);
      (k != 0, Lex(Overwrite(grown, l.size, l.rest[..k]), l.size + k, 0, l.mode, l.rest[k..]))
    else
      var moved := Overwrite(l.buf, 0, l.buf[l.offset..l.size]);
      var k := Min(l.offset, |l.rest|);
      var size := if k < l.offset then l.size - (l.offset - k) else l.size;
      (k != 0, Lex(Overwrite(moved, l.size - l.offset, l.rest[..k]), size, 0, l.mode, l.rest[k..]))
  }

  /** `isalpha` and `isalnum` in the C locale. */
  predicate IsAlpha(c: char)
  {
    'a' <= c <= 'z' || 'A' <= c <= 'Z'
  }

  predicate IsAlnum(c: char)
  {
    IsAlpha(c) || '0' <= c <= '9'
  }

  /** `strchr("|:\n\t", c) != NULL`, which also holds for the terminating NUL. */
  predicate IsPunct(c: char)
  {
    c == '|' || c == ':' || c == '\n' || c == '\t'
  }

  /** The inner loop over spaces (parse.cc:67-69). */
  function SkipSpaces(l: Lex): (r: Lex)
    requires Sane(l)
    ensures r == l.(offset := r.offset) && r.offset >= l.offset
    decreases l.size - l.offset
  {
    if l.offset < l.size && l.buf[l.offset] == ' ' then SkipSpaces(l.(offset := l.offset + 1)) else l
  }

  /** The outer loop (parse.cc:66-79): false when the input ran out. */
  function EatSpaces(l: Lex): (r: (bool, Lex))
    requires Sane(l)
    ensures Sane(r.1) && r.1.mode == l.mode
    ensures r.0 ==> r.1.offset != r.1.size
    decreases |l.rest|
  {
    var l1 := SkipSpaces(l);
    if l1.offset == l1.size then
      var refilled := Refill(l1);
      if !refilled.0 then (false, refilled.1) else EatSpaces(refilled.1)
    else
      (true, l1)
  }

  /** The inner loop over alphanumerics (parse.cc:88-90). */
  function AlnumEnd(buf: seq<char>, size: nat, pos: nat): (e: nat)
    requires size <= |buf|
    ensures e >= pos
    decreases size - pos
  {
    if pos < size && IsAlnum(buf[pos]) then AlnumEnd(buf, size, pos + 1) else pos
  }

  /** The identifier loop (parse.cc:87-105), `pos` being `newBufferOffset`. */
  function ScanIdent(l: Lex, pos: nat): (r: Lexed)
    requires Sane(l) && l.offset <= pos
    ensures r.Lexed? && Sane(r.lex) && r.lex.mode == l.mode
    decreases |l.rest|
  {
    var e := AlnumEnd(l.buf, l.size, pos);
    if e == l.size then
      var refilled := Refill(l);
      if !refilled.0 then Lexed(EndOfInput, refilled.1.(offset := e)) else ScanIdent(refilled.1, e)
    else
      Lexed(Ident, l.(offset := e))
  }

  /** `normalParse`. */
  function NormalParse(l: Lex): (r: Lexed)
    requires Sane(l)
    ensures r.Lexed? ==> Sane(r.lex) && r.lex.mode == l.mode
  {
    var eaten := EatSpaces(l);
    var l1 := eaten.1;
    if !eaten.0 then Lexed(EndOfInput, l1)
    else if l1.offset >= |l1.buf| then Undefined
    else
      var c := l1.buf[l1.offset];
      if IsPunct(c) then Lexed(Punct(c), l1.(offset := l1.offset + 1))
      else if c == '\0' then Lexed(EndOfInput, l1.(offset := l1.offset + 1))
      else if IsAlpha(c) then ScanIdent(l1, l1.offset)
      else Lexed(EndOfInput, l1)
  }

  /** The inner loop up to a newline (parse.cc:132-134). */
  function LineEnd(buf: seq<char>, size: nat, pos: nat): (e: nat)
    requires size <= |buf|
    ensures e >= pos && (pos < size && buf[pos] != '\n' ==> e > pos)
    decreases size - pos
  {
    if pos < size && buf[pos] != '\n' then LineEnd(buf, size, pos + 1) else pos
  }

  /** The command loop (parse.cc:130-145), `pos` being `newBufferOffset`, which is never 0 at the test. */
  function ScanCommand(l: Lex, pos: nat): (r: Lexed)
    requires Sane(l)
    requires 1 <= pos || (pos < l.size && l.buf[pos] != '\n')
    ensures r.Lexed? ==> Sane(r.lex) && r.lex.mode == l.mode
    decreases |l.rest|
  {
    var e := LineEnd(l.buf, l.size, pos);
    if e != l.size && e - 1 >= |l.buf| then Undefined
    else if e != l.size && l.buf[e - 1] != '\\' then Lexed(RuleCommand, l.(offset := e + 1))
    else if l.offset > l.size then Undefined
    else
      var refilled := Refill(l);
      if !refilled.0 then Lexed(EndOfInput, refilled.1) else ScanCommand(refilled.1, e)
  }

  /** `commandParse` once a byte is available: a tab starts a command, anything else goes back to normal mode. */
  function CommandStart(l: Lex): (r: Lexed)
    requires Sane(l) && l.offset != l.size
    ensures r.Lexed? ==> Sane(r.lex)
  {
    if l.offset >= |l.buf| then Undefined
    else if l.buf[l.offset] != '\t' then NormalParse(l.(mode := Normal))
    else ScanCommand(l, l.offset)
  }

  /** `commandParse`. */
  function CommandParse(l: Lex): (r: Lexed)
    requires Sane(l)
    ensures r.Lexed? ==> Sane(r.lex)
  {
    if l.offset == l.size then
      var refilled := Refill(l);
      if !refilled.0 then Lexed(EndOfInput, refilled.1) else CommandStart(refilled.1)
    else
      CommandStart(l)
  }

  /** `yylex`: dispatch on the mode. */
  function Yylex(l: Lex): (r: Lexed)
    requires Sane(l)
    ensures r.Lexed? ==> Sane(r.lex)
  {
    match l.mode
    case Normal => NormalParse(l)
    case Command => CommandParse(l)
  }
}
