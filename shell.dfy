/**
 * The command-line tokenizer of the triton shell: the newline cleanup done by
 * `prompt_user` on the line just read, and the `strsep` loop of the child branch
 * that cuts the line at single spaces into a NULL-terminated argument array for
 * `execvp`.
 */
module Shell {
  import opened Wrappers
  import opened Fields

  /** Capacity of the `args` array; at most `MaxNumArgs - 1` fields are taken, leaving room for NULL. */
  const MaxNumArgs: nat := 50
  /** The one delimiter character handed to `strsep`. */
  const Delim: char := ' '
  const Newline: char := '\n'
  const Nul: char := '\0'

  // ---------------------------------------------------------------------------
  // prompt_user: dropping the newline that ends the line read
  // ---------------------------------------------------------------------------

  /**
   * The line as the shell keeps it: a final newline is removed, and nothing
   * else; any other line (for instance the last one of a file without a final
   * newline) is kept as it is. The read must have produced a character.
   */
  function StripNewline(line: string): (r: string)
    requires |line| > 0
    ensures r == line || r + [Newline] == line
    ensures r == line <==> line[|line| - 1] != Newline
  {
    if line[|line| - 1] == Newline then line[..|line| - 1] else line
  }

  /** Earlier newlines survive: only the one at the very end goes. */
  lemma {:induction false} StripNewlineOnlyLast(s: string)
    ensures StripNewline(s + [Newline]) == s
    ensures |s| > 0 && s[|s| - 1] != Newline ==> StripNewline(s) == s
  {
  }

  /**
   * `prompt_user` after `getline` has put `chars` characters in `buffer`:
   * a final newline is overwritten in place with the terminator. When the
   * buffer holds a NUL-terminated line without NUL characters, as `getline`
   * leaves it for a typed line, the C string in the buffer afterwards is the
   * line without its final newline.
   */
  method PromptUser(buffer: array<char>, chars: nat)
    requires 0 < chars <= buffer.Length
    modifies buffer
    ensures old(buffer[chars - 1]) == Newline ==> buffer[..] == old(buffer[..])[chars - 1 := Nul]
    ensures old(buffer[chars - 1]) != Newline ==> buffer[..] == old(buffer[..])
    ensures chars < buffer.Length && old(buffer[chars]) == Nul && Nul !in old(buffer[..chars]) ==>
      CString(buffer[..]) == StripNewline(old(buffer[..chars]))
  {
    ghost var line := buffer[..chars];
    ghost var before := buffer[..];
    if buffer[chars - 1] == Newline {
      buffer[chars - 1] := Nul;
    }
    if chars < buffer.Length && before[chars] == Nul && Nul !in line {
      CStringOfTerminated(buffer[..], StripNewline(line));
    }
  }

  /** A buffer that starts with a NUL-free string followed by NUL holds exactly that C string. */
  lemma CStringOfTerminated(buf: string, s: string)
    requires |s| < |buf| && buf[..|s|] == s && buf[|s|] == Nul && Nul !in s
    ensures CString(buf) == s
  {
  }

  // ---------------------------------------------------------------------------
  // The argument splitter of the child branch
  // ---------------------------------------------------------------------------

  /** What one `strsep(&cursor, " ")` call returns, and where it leaves the cursor. */
  datatype Sep = Sep(field: string, next: Option<nat>)

  /**
   * `strsep` on the line with the cursor at offset `cursor`: the field runs from
   * the cursor to the next space or to the end of the line; the cursor moves
   * just past that space, or becomes NULL when the line has no space left.
   */
  function Strsep(line: string, cursor: nat): (r: Sep)
    requires cursor <= |line|
    ensures Delim !in r.field
    ensures cursor + |r.field| <= |line| && r.field == line[cursor..cursor + |r.field|]
    ensures r.next.None? <==> cursor + |r.field| == |line|
    ensures r.next.Some? ==> r.next.value == cursor + |r.field| + 1 && line[cursor + |r.field|] == Delim
  {
    match FindFrom(line, Delim, cursor)
    case None => Sep(line[cursor..], None)
    case Some(i) => Sep(line[cursor..i], Some(i + 1))
  }

  /** One `strsep` call takes off exactly the first field of what is left of the line. */
  lemma StrsepStep(line: string, cursor: nat)
    requires cursor <= |line|
    ensures Strsep(line, cursor).next.Some? ==> Strsep(line, cursor).next.value <= |line|
    ensures var r := Strsep(line, cursor);
      Split(line[cursor..], Delim) ==
        [r.field] + (if r.next.None? then [] else Split(line[r.next.value..], Delim))
  {
    var r := Strsep(line, cursor);
    var k := cursor + |r.field|;
    match r.next
    case None =>
      assert line[cursor..] == r.field;
      SplitSingle(r.field, Delim);
    case Some(next) =>
      assert line[cursor..] == r.field + [Delim] + line[next..];
      SplitCons(r.field, line[next..], Delim);
  }

  /**
   * The arguments the splitter produces from a line: its space-separated
   * fields, cut off after the first `MaxNumArgs - 1` of them.
   */
  function Tokens(line: string): (args: seq<string>)
    ensures 1 <= |args| < MaxNumArgs
    ensures forall i :: 0 <= i < |args| ==> Delim !in args[i]
  {
    var fields := Split(line, Delim);
    if |fields| < MaxNumArgs then fields else fields[..MaxNumArgs - 1]
  }

  /**
   * How many arguments a line gives: one per space plus one, up to the cap;
   * the tokens are always the leading fields of the line, in order.
   */
  lemma TokensCount(line: string)
    ensures var spaces := multiset(line)[Delim];
      |Tokens(line)| == if spaces < MaxNumArgs - 1 then spaces + 1 else MaxNumArgs - 1
    ensures Tokens(line) == Split(line, Delim)[..|Tokens(line)|]
  {
    SplitCount(line, Delim);
  }

  /** Round trip: a line of at most 49 fields is the join of its tokens with single spaces. */
  lemma TokensRoundTrip(line: string)
    requires |Split(line, Delim)| < MaxNumArgs
    ensures Join(Tokens(line), Delim) == line
  {
    JoinSplit(line, Delim);
  }

  /**
   * The cap: a line of more than 49 fields gives its first 49 fields, and the
   * line is those fields, one space, and the discarded remainder.
   */
  lemma TokensCap(line: string)
    requires |Split(line, Delim)| >= MaxNumArgs
    ensures Tokens(line) == Split(line, Delim)[..MaxNumArgs - 1]
    ensures Join(Tokens(line), Delim) + [Delim] + Join(Split(line, Delim)[MaxNumArgs - 1..], Delim) == line
  {
    var fields := Split(line, Delim);
    JoinSplit(line, Delim);
    JoinAppend(fields[..MaxNumArgs - 1], fields[MaxNumArgs - 1..], Delim);
    assert fields[..MaxNumArgs - 1] + fields[MaxNumArgs - 1..] == fields;
  }

  /**
   * The `strsep` loop of the child branch: while the cursor is not NULL and
   * fewer than `MaxNumArgs - 1` arguments were taken, the next field goes into
   * `args[n]`; then `args[n]` is set to NULL. The array has `MaxNumArgs` slots
   * and the terminator lands inside it, after exactly the tokens of the line.
   */
  method SplitArgs(line: string) returns (args: array<Option<string>>, n: nat)
    ensures fresh(args) && args.Length == MaxNumArgs
    ensures n == |Tokens(line)| && n < MaxNumArgs
    ensures forall i :: 0 <= i < n ==> args[i] == Some(Tokens(line)[i])
    ensures args[n] == None
  {
    ghost var fields := Split(line, Delim);
    args := new Option<string>[MaxNumArgs](_ => None);
    var cursor: Option<nat> := Some(0);
    n := 0;
    while cursor.Some? && n < MaxNumArgs - 1
      invariant n <= MaxNumArgs - 1 && n <= |fields|
      invariant forall i :: 0 <= i < n ==> args[i] == Some(fields[i])
      invariant cursor.Some? ==> cursor.value <= |line| && fields[n..] == Split(line[cursor.value..], Delim)
      invariant cursor.None? ==> n == |fields|
    {
      var c := cursor.value;
      var sep := Strsep(line, c);
      StrsepStep(line, c);
      args[n] := Some(sep.field);
      cursor := sep.next;
      n := n + 1;
    }
    args[n] := None;
  }

  /**
   * The argument vector `execvp` reads from an array of string pointers: the
   * entries before the first NULL.
   */
  function Argv(args: seq<Option<string>>): (argv: seq<string>)
    ensures |argv| <= |args|
    ensures forall i :: 0 <= i < |argv| ==> args[i] == Some(argv[i])
    ensures |argv| < |args| ==> args[|argv|] == None
  {
    if args == [] || args[0].None? then [] else [args[0].value] + Argv(args[1..])
  }

  /** The one call the child branch makes: `execvp(file, argv)`. */
  datatype Exec = Exec(file: string, argv: seq<string>)

  /**
   * The child branch on the line in the buffer: split it, then execute
   * `args[0]` with the whole terminated array as its argument vector. The
   * program is the first field of the line and the argument vector is exactly
   * the tokens, starting with the program name.
   */
  method ChildBranch(line: string) returns (call: Exec)
    ensures call.argv == Tokens(line)
    ensures call.file == call.argv[0] == Split(line, Delim)[0]
  {
    var args, n := SplitArgs(line);
    var argv := Argv(args[..]);
    assert |argv| == n;
    assert argv == Tokens(line);
    call := Exec(args[0].value, argv);
  }

  /**
   * One pass of the main loop up to `execvp`, for a line `getline` left in the
   * buffer NUL-terminated: `prompt_user` cleans it in place, then the child
   * splits the C string now in the buffer. The exec call is made of the tokens
   * of the line without its final newline.
   */
  method ReadAndSplit(buffer: array<char>, chars: nat) returns (call: Exec)
    requires 0 < chars < buffer.Length && buffer[chars] == Nul && Nul !in buffer[..chars]
    modifies buffer
    ensures old(buffer[chars - 1]) == Newline ==> buffer[..] == old(buffer[..])[chars - 1 := Nul]
    ensures old(buffer[chars - 1]) != Newline ==> buffer[..] == old(buffer[..])
    ensures call.argv == Tokens(StripNewline(old(buffer[..chars])))
    ensures call.file == call.argv[0]
  {
    PromptUser(buffer, chars);
    call := ChildBranch(CString(buffer[..]));
  }

  /**
   * Lines as typed: "ls  -l" followed by newline yields three arguments, the
   * middle one empty, and an empty line yields a single empty argument.
   */
  lemma TypedLines()
    ensures Tokens(StripNewline("ls  -l\n")) == ["ls", "", "-l"]
    ensures Tokens(StripNewline("\n")) == [""]
  {
    assert StripNewline("ls  -l\n") == "ls" + [Delim] + ("" + [Delim] + "-l");
    SplitCons("ls", "" + [Delim] + "-l", Delim);
    SplitCons("", "-l", Delim);
    SplitSingle("-l", Delim);
    assert StripNewline("\n") == "";
    SplitSingle("", Delim);
  }
}
