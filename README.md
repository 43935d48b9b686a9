# triton-shell command-line tokenizer, in Dafny

This project models the only computing logic of the triton shell (`shell.c`):
how one typed line becomes the argument vector handed to `execvp`.

- **Line cleanup** (`prompt_user`): after `getline` has read `chars`
  characters into the buffer, a final newline is overwritten in place with the
  string terminator. `Shell.PromptUser` does this on an `array<char>`. Its
  contract ties the C string left in the buffer to the pure
  `Shell.StripNewline`.
- **Argument splitter** (the child branch of `main`): a `while` loop calls
  `strsep` with the single delimiter `' '`. It stores each field in the
  50-slot `args` array, at most 49 of them, and then writes the `NULL`
  terminator. `Shell.SplitArgs` is that loop over an `array<Option<string>>`,
  where `None` plays `NULL`. It is proved against the pure specification
  `Shell.Tokens`, which is built on `Fields.Split`.
- `Shell.ChildBranch` reads the argument vector back from the array the way
  `execvp` does (`Shell.Argv`). It gives the exec call: program `args[0]`,
  argument vector `args`. `Shell.ReadAndSplit` chains the cleanup and the
  splitter for one line.

Module `Fields` holds the string algebra: `Split` into fields at a delimiter
and its inverse `Join`, proved to round-trip in both directions. It also says
that a line with k delimiters has k + 1 fields, and it defines the C-string
view of a buffer. Module `Wrappers` holds `Option`.

An empty line gives one empty argument, because `strsep` starts from a
non-NULL cursor, and `execvp("")` is still attempted (`Shell.TypedLines`).
Arguments are the pieces between single spaces, so repeated, leading or
trailing spaces give empty arguments. At most 49 arguments are taken.

## Model

| member | source | states |
|---|---|---|
| Shell.StripNewline | shell.c:14-16 | the result is the line itself or the line less one final newline, and it is the line exactly when the line does not end in a newline |
| Shell.StripNewlineOnlyLast | shell.c:14-16 | a line ending in newline loses only that character (earlier newlines stay); a line not ending in newline is unchanged |
| Shell.PromptUser | shell.c:11-18 | the buffer changes only at index chars-1, where a newline becomes NUL; for a NUL-terminated line without NULs, the C string left in the buffer is the line without its final newline; it requires that at least one character was read, since `buffer[chars-1]` is indexed unguarded |
| Shell.Strsep | shell.c:50 | the field returned is the space-free stretch of the line from the cursor; the cursor becomes NULL exactly when the field reaches the end of the line, and otherwise moves just past the space that ended the field |
| Shell.StrsepStep | shell.c:49-55 | one `strsep` call takes off exactly the first field of the rest of the line, and the new cursor holds the remaining fields |
| Shell.Tokens | shell.c:46-56 | the splitter yields between 1 and MaxNumArgs-1 = 49 arguments, none containing a space |
| Shell.TokensCount | shell.c:49-54 | the number of arguments is the number of spaces plus one, capped at 49, and the arguments are the leading fields of the line in left-to-right order |
| Shell.TokensRoundTrip | shell.c:49-55 | for a line of at most 49 fields, joining the arguments with single spaces gives the line back |
| Shell.TokensCap | shell.c:49-50 | for a line of more than 49 fields, the arguments are its first 49 fields, and the line is their join, one space, and the discarded remainder |
| Shell.SplitArgs | shell.c:46-56 | the loop fills args[0..n) with exactly the tokens of the line and writes NULL at args[n] with n < 50, so the terminator lies inside the 50-slot array |
| Shell.Argv | shell.c:61 | the vector `execvp` reads from args is the entries before the first NULL, all of them non-NULL |
| Shell.ChildBranch | shell.c:46-61 | the exec call's argument vector is exactly the tokens of the line, and the program is its first element, the first field of the line |
| Shell.ReadAndSplit | shell.c:13-61 | the buffer changes only at index chars-1, where a final newline becomes NUL; for a line that getline left NUL-terminated, the exec call is made of the tokens of the line without its final newline, with argv[0] as the program |
| Shell.TypedLines | shell.c:14-56 | "ls  -l" followed by newline gives ["ls", "", "-l"], and an empty line gives one empty argument |
| Fields.FindFrom | shell.c:50 | the index found holds the delimiter and no delimiter occurs between the start and it; when none is found the rest of the string has no delimiter |
| Fields.Split | shell.c:49-55 | a string has at least one field and no field contains the delimiter |
| Fields.JoinSplit | shell.c:49-55 | joining the fields of a string with the delimiter gives the string back |
| Fields.SplitJoin | shell.c:49-55 | splitting the join of delimiter-free fields gives those fields back |
| Fields.SplitCount | shell.c:49-54 | a string has one more field than it has delimiters |
| Fields.JoinAppend | shell.c:49-55 | joining two non-empty field lists puts one delimiter between their joins |
| Fields.CString | shell.c:15 | the C string of a buffer is its longest NUL-free prefix, ended by a NUL or by the end of the buffer |

## Left out

- Terminal I/O: the prompt `write` (which writes 7 bytes and so drops the trailing space), the `getline` call, and the debug `printf`/`puts` output. The characters read and their count are parameters of `PromptUser` and `ReadAndSplit`.
- PromptUser: `getline` returning -1 at end of input or on error is not modelled. The size_t wrap of `chars - 1` would index outside the buffer, so the model requires that at least one character was read.
- ReadAndSplit: takes the line as `getline` leaves it: NUL-terminated and without NUL characters. A line holding a NUL would be cut there by the C string view; that case is not modelled.
- Process control: `fork`, `execvp`, `waitpid`, the `err` exits and the endless `while (1)` loop are operating-system calls. The model stops at the `Exec` value the child would hand to `execvp`.
- Exit-status decoding with `WIFEXITED`/`WEXITSTATUS` is a platform bit encoding and is not modelled.
- Memory management: `calloc`/`free`, and `getline` reallocating a buffer that `prompt_user` got by value. That leaves `main`'s `buf` stale for lines of 128 bytes or more, when `realloc` moves the buffer. The splitter takes the line as an immutable sequence instead.
- SplitArgs: `strsep` writes NUL characters into the buffer and `args` holds pointers into it. The model keeps the line immutable and stores copies of the fields, so aliasing between `args` and the buffer is not captured. The slots after the terminator are uninitialised in C and are left unspecified.
- The delimiter is passed as a pointer to one `char` that is not NUL-terminated, so the real delimiter set is undefined. The model uses the intended set, a single space.
- Pipelines, `>`/`2>` redirection, the history log and builtin, and interrupt handling do not exist in `shell.c` and are not modelled.
