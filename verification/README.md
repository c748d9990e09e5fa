# A verified model of a small teaching kernel and its user programs

The repository holds an x86 teaching kernel (`student-distrib/`), its user
programs (`syscalls/`), an emulator of its system calls, and an animation
program with an assembly core (`fish/`).  This project models the parts that
carry state from step to step, in the form the repository gives them, and proves
what they keep over whole runs:

- **File system and descriptors** (`FileSystem`, `Directory`, `Descriptors`,
  `Streams`, `Programs`).  A flat image of 4096-byte blocks is read byte by byte
  through block indirection.  A descriptor hands out successive pieces of the
  file's content whatever happens to the other descriptors, so `cat` writes
  exactly the file and `ls` exactly the directory.
- **Streaming grep** (`Text`, `Grep`).  A 1024-byte window with carried partial
  lines prints exactly the lines that contain the pattern, for every pattern, if
  and only if no line is longer than 1024 bytes and the uninitialised byte behind
  the buffer does not make a window cut a line.
- **Console and terminals** (`Screens`, `Terminals`, `Display`).  The bytes of
  video memory show the last 25 rows of an unbounded roll of typed text, a
  backspace undoes a character across wraps and scrolls, and three terminals
  that share one screen behave like three private consoles.
- **Blink engine and fish** (`Blinking`, `BlinkRuns`, `Pool`, `Frames`).  A
  linked list threaded through a pool of 2000 slots refines a plain list of
  nodes; every node keeps its rhythm whatever happens to the others; the two
  frame files alternate on the screen.
- **Conversions, memory routines, argument handling** (`Numbers`, `Memory`,
  `Arguments`).  `itoa` and the numeric conversions of `printf` invert a
  positional parser, word-at-a-time copying refines bytewise copying, and command
  lines survive tokenising and joining.

Each module separates a specification (functions on values, with the properties
proved about them as lemmas) from the program (methods on arrays and objects
whose loops follow the source).  Every method states its result and its whole
new state through the specification.

## Conventions

- A byte is an integer below 256.  A C string that is only read is a sequence
  without NUL; a string in a buffer is described by `Bytes.Holds`.
- Unsigned 32-bit and 16-bit wrap-around is written out where the source can
  reach it: the end of a read request, the blink countdown, the 8-bit cursor
  fields of a terminal switch.
- Pointers into a fixed pool or buffer are indices; `Pool.NULL` is the null link.
- What a user program writes to descriptor 1 is its method's result `out`.

## Where the code and its comments differ

The model follows the code.

- The comment on `read_data` promises a success flag; the code returns a count.
  It fetches the byte at index `length` of the file before it notices the end,
  so the block of that byte must be valid too: `FileSystem.ReadShortByOne` is
  the failing case and `FileSystem.ReadCountIff` the exact condition.
- `sync` always displays the off character, because the flags that its
  conditional move inspects are cleared by the preceding test
  (`BlinkRuns.SyncAgreesIff` says when that shows).
- A node added at location 0 leaves its slot looking free
  (`Pool.PushedOkIff`); the next addition links that slot to itself
  (`Pool.AddingAtZeroMakesALoop`).
- A backspace at the first cell of the screen moves the cursor to the row before
  the first one (`Screens.LeavesTheScreenIff`).  The screen model therefore
  has one row in front of video memory.  A terminal switch in that state saves row
  255 (`Terminals.SwitchKeepsCursorIff`).
- The line search of grep looks at the byte behind its buffer before anything has
  been stored there.  If that byte happens to be a newline, the first full window that
  does not end in one is cut there (`Grep.Windows`, `Grep.ExactIff`).
- The joining loop of the emulator's `ece391_getargs` terminates an argument
  before it knows that it failed, so the byte just past a full buffer is
  overwritten exactly when some first arguments, joined, fill it
  (`Arguments.JoinArgs`).
- Blink lengths are compared as signed 16-bit numbers, so a length of 0 or above
  32768 lasts one tick (`Blinking.LastsAsLongAsGivenIff`).

## Main results

Their rows in the table below say "Main result"; the other rows are the steps that lead
to them.

- Files:
  - `Grep.DoOneFile`: the streaming search's output is the report on what its windows make of the file;
  - `Grep.ExactIff`: for which files those are its lines, for every pattern;
  - `Grep.OutputExactIff`: and for which the output is right;
  - `Grep.OutputInOrder`, `Grep.OutputFindsIff`: which lines are printed on such files;
  - `Streams.StreamsAreIndependent`: a descriptor delivers what its own reads alone would;
  - `Streams.EveryStreamIsAPrefix`: every interleaving of calls delivers prefixes of files;
  - `Streams.PerformAll`: and so does a process that carries them out;
  - `Descriptors.OpenThenClose`: opening and closing leaves the descriptors as they were;
  - `FileSystem.ReadCountIff`: when a read's count is right;
  - `Directory.LookupInvertsIndex`: when lookup by name inverts lookup by index;
  - `Programs.Cat`: the program writes the file;
  - `Programs.Ls`: the program writes the directory.
- Screen:
  - `Screens.ScreenIsLastRows`: video memory shows the last 25 wrapped rows of what was typed;
  - `Display.Console.ClearAndPuts`: the same down to the bytes, attributes included;
  - `Screens.ErasingRestores`: backspaces undo typing on every screen;
  - `Screens.ErasingIsSafeIff`: and when they may;
  - `Display.Play`: physical memory runs as the three-terminal machine does;
  - `Terminals.AsIfPrivate`: which gives every terminal a private console;
  - `Terminals.StepPrivateIff`: and in which steps it does not.
- Blinking:
  - `Pool.Play`: the linked pool refines a plain list of nodes over whole runs;
  - `Pool.AddingAtZeroMakesALoop`: and why location 0 is left out of them;
  - `BlinkRuns.BlinksOnTime`: a node keeps its rhythm whatever happens to others;
  - `BlinkRuns.RemovedForGood`: a removed node is gone until one is added in its place;
  - `BlinkRuns.SyncedStayTogether`: synchronised nodes stay together;
  - `Frames.ShowFrames`: from two files to alternating frames in video memory.
- Libraries:
  - `Memory.Memmove`: word-at-a-time copying is bytewise copying for every overlap;
  - `Numbers.NumeralRoundTrip`: parsing inverts conversion;
  - `Numbers.SignedRoundTrip`: for signed numbers too;
  - `Arguments.Retokenised`: tokenising, joining and tokenising again changes nothing;
  - `Arguments.JoinArgs`: what the joining loop writes, to the byte;
  - `Arguments.PassArguments`: the kernel's path of an argument text.

## Model

| member | source | states |
|---|---|---|
| FileSystem.ReadData | student-distrib/filesys.c:237-260 | for every inode, offset and 32-bit length that stay among an inode's block numbers: the exact return value, the bytes stored up to the first bad block, the wrapped end of the request or the byte after the file, and that no other byte of the buffer changes |
| FileSystem.LittleEndian | student-distrib/filesys.c:247-249 | a word of the image is its four bytes, the least significant one first |
| FileSystem.ReadCountIff | student-distrib/filesys.c:246-259 | Main result: the count is min(length, rest of the file) exactly when the request's end does not wrap around and every block the loop touches is valid, or the end wraps around and the request starts at the file's end |
| FileSystem.ReadStopsAtBadBlock | student-distrib/filesys.c:248-251 | a read that meets a bad block stops there and returns one less than the bytes it has stored |
| FileSystem.ReadBehindTheEnd | student-distrib/filesys.c:253-257 | a read from behind the end never notices it and returns what was asked for |
| FileSystem.ReadShortByOne | student-distrib/filesys.c:247-251 | if only the entry for the byte after the file is invalid, a read to the end comes back one byte short |
| FileSystem.ReadWellFormed | student-distrib/filesys.c:237-260 | on a well-formed file the count is the minimum, one more byte may be stored, and the bytes are the file's content |
| FileSystem.ReadContent | student-distrib/filesys.c:237-260 | a read returns the file's content from the offset on, none of it if the request's end wraps around, and stores at most one byte behind it |
| FileSystem.BlocksAt | student-distrib/filesys.c:247-254 | byte i reached through the inode's block numbers is byte i of the blocks joined together |
| FileSystem.ContentAt | student-distrib/filesys.h:39-46 | bytewise indirection yields the joined blocks cut at the file's length |
| FileSystem.ContentInImage | student-distrib/filesys.h:24-46 | the address in the image of every byte of a file, and of its length |
| Directory.Strncmp | student-distrib/lib.c:573-587 | the result is 0 exactly when the C string stored in the name field is the first n bytes of the query |
| Directory.Strncpy | student-distrib/lib.c:610-621 | the destination gets the source string padded with NULs, and nothing else changes |
| Directory.ReadDentryByIndex | student-distrib/filesys.c:216-225 | the entry at an index, its name padded to 32 bytes, also for an index behind the 63 entries, which the code does not check |
| Directory.EntryInImage | student-distrib/filesys.h:24-37 | the addresses in the image of an entry's name, type and inode number |
| Directory.ReadDentryByName | student-distrib/filesys.c:188-206 | the first of the 63 entries with the name, or failure if there is none |
| Directory.LookupFrom | student-distrib/filesys.c:194-204 | the entry found has the name and none from the start of the search to it has |
| Directory.Lookup | student-distrib/filesys.c:188-206 | the whole name found is the name asked for, and no entry before it has it |
| Directory.LookupInvertsIndex | student-distrib/filesys.c:188-225 | Main result: lookup by name inverts lookup by index exactly on the entries whose name does not occur before them |
| Directory.SamePadded | student-distrib/filesys.c:195-197 | two names are equal exactly when their NUL-padded 32-byte forms are |
| Descriptors.OpenLowestFree | student-distrib/syscall.c:139-195 | open hands out the lowest free descriptor of 2..7, never one in use, with the operations of the entry's type, disturbs no other, keeps the table valid, and fails exactly for the four reasons listed |
| Descriptors.LowestFree | student-distrib/syscall.c:154-162 | every descriptor before the one found is in use and it is free |
| Descriptors.Process.constructor | student-distrib/syscall.c:457-471 | a new process has descriptors 0 and 1 open and 2 to 7 free |
| Descriptors.Process.Open | student-distrib/syscall.c:139-195 | the new table and the result are those of the specification; only opening a directory resets the directory cursor |
| Descriptors.OpenedFile | student-distrib/syscall.c:139-195 | a regular file that has been opened stands at its start with its whole content unread, on a descriptor that was free |
| Descriptors.Process.Close | student-distrib/syscall.c:206-225 | the new table and the result are those of the specification, which ClosedExactly and OpenThenClose pin down |
| Descriptors.ClosedExactly | student-distrib/syscall.c:206-225 | close succeeds exactly for a descriptor of 2 and above in use; it is free afterwards, and every other one is unchanged |
| Descriptors.OpenThenClose | student-distrib/syscall.c:139-225 | Main result: a successful open followed by close of its result leaves the same descriptors in use, unchanged, and a further open of the name gets the same descriptor |
| Descriptors.Process.FileRead | student-distrib/filesys.c:88-98 | the next bytes of the file's content for every byte count, a negative one being a large unsigned one, and a position advanced by exactly their number |
| Descriptors.Process.DirectoryRead | student-distrib/filesys.c:146-167 | the name at the directory cursor with its terminator, its length as result, and a cursor one further, modulo 256 |
| Descriptors.Process.Read | student-distrib/syscall.c:89-104 | the four outcomes of a read by the descriptor's kind, and what each leaves unchanged |
| Descriptors.ReadOn | student-distrib/filesys.c:88-98 | what a read delivers and what the file still holds are together what it held before |
| Descriptors.PaddedCString | student-distrib/filesys.c:157-163 | the length of a padded name is the length of the name |
| Streams.Perform | student-distrib/syscall.c:89-225 | a process carrying out a call takes exactly the session's step, and delivers the step's bytes or the directory's next name |
| Streams.StepFaithful | student-distrib/syscall.c:89-225 | every call keeps each open file's stream equal to the part of its content before its position |
| Streams.AppendDelivered | student-distrib/filesys.c:88-98 | one read extends that part by exactly what it delivers |
| Streams.EveryStreamIsAPrefix | student-distrib/syscall.c:89-225 | Main result: after any interleaving of open, read and close each open file has delivered a prefix of its content, and 0 and 1 are still open |
| Streams.OthersDoNotDisturb | student-distrib/syscall.c:89-225 | a call that neither reads nor closes an open descriptor leaves it and its stream alone |
| Streams.StreamsAreIndependent | student-distrib/syscall.c:89-225 | Main result: in any interleaving without its close, a descriptor delivers what its own reads alone would deliver |
| Streams.PerformStep | student-distrib/syscall.c:89-225 | one call on the process, the bytes it delivers noted, is one step of the session |
| Streams.PerformAll | student-distrib/syscall.c:89-225 | Main result: a process that carries out any sequence of calls ends with the table and the delivered streams of the session's run |
| Programs.CopyOut | syscalls/ece391cat.c:21-28 | the loop ends having written exactly the rest of the file |
| Programs.Cat | syscalls/ece391cat.c:16-30 | Main result: writes the whole file and nothing else, or reports that there is none |
| Programs.ListNext | syscalls/ece391ls.c:18 | one turn of the loop takes the next entry's name, with a newline behind it |
| Programs.ListingEnds | syscalls/ece391ls.c:18 | the first empty name, and no other, ends the listing |
| Programs.ListOut | syscalls/ece391ls.c:18-26 | the loop ends at the first empty name having written all names before it in order |
| Programs.ListingLines | syscalls/ece391ls.c:18-26 | the lines of the listing are the entries' names in their order |
| Programs.Ls | syscalls/ece391ls.c:13-28 | Main result: lists the directory in order, or reports that it cannot be opened |
| Text.UnlinesOfLines | syscalls/ece391grep.c:30-32 | cutting a file into lines loses nothing but the last newline |
| Text.LinesOfUnlines | syscalls/ece391grep.c:30-32 | joined lines are cut into the same lines again |
| Text.CutAtLineEnd | syscalls/ece391grep.c:52-56 | the lines of a text cut after a newline are those of its parts |
| Text.CutInLine | syscalls/ece391grep.c:33-38 | a text cut within a line has the same lines, but for the one that goes on in the second part |
| Grep.Strncmp | syscalls/ece391support.c:35-46 | the result is 0 exactly when the pattern occurs at the position, within the line |
| Grep.Strcpy | syscalls/ece391support.c:16 | an overlapping copy towards the front moves the string and its terminator and nothing after them |
| Grep.LineEnd | syscalls/ece391grep.c:30-32 | the first newline from the start of the line, or the end of the window |
| Grep.LineMatches | syscalls/ece391grep.c:42-51 | the line is found exactly if the specification selects it, by SelectsIff exactly if it is the non-empty pattern with something before and behind it |
| Grep.SelectsInside | syscalls/ece391grep.c:42-51 | a non-empty pattern is found whatever stands before and behind it |
| Grep.SelectsOnlyInside | syscalls/ece391grep.c:42-51 | what is found is the line but for something before and something behind it |
| Grep.SelectsIff | syscalls/ece391grep.c:42-51 | a line is selected exactly if it is x + s + y with s not empty |
| Grep.SearchLine | syscalls/ece391grep.c:40-51 | the line is printed once, after the file name and a colon, exactly if it contains the pattern; only its terminator is written |
| Grep.Carry | syscalls/ece391grep.c:34-37 | the partial line ends up at the front of the window |
| Grep.CarryOver | syscalls/ece391grep.c:34-37 | what is left of the window becomes the front of the next one |
| Grep.NextLine | syscalls/ece391grep.c:30-33 | the next line of the window, and whether the window ends in a newline |
| Grep.TakeLine | syscalls/ece391grep.c:40-52 | what is printed for a line plus what is owed for the rest is what was owed before; the rest of the window is untouched |
| Grep.ScanLines | syscalls/ece391grep.c:28-57 | the same across all lines of one window; what becomes of the byte behind the window |
| Grep.ScanWindow | syscalls/ece391grep.c:28-57 | what is printed plus what is owed for the carried bytes and the unread file is what was owed before, whatever byte is behind the window |
| Grep.TurnPays | syscalls/ece391grep.c:33-38 | a full window in front of a newline is dealt with on its own, every other one together with the rest of the file |
| Grep.Fill | syscalls/ece391grep.c:22-27 | the window grows by the next bytes of the file, and window plus unread file stay the same text |
| Grep.Turn | syscalls/ece391grep.c:21-59 | one turn of the read loop keeps printed plus owed; a turn that reads nothing leaves nothing to do |
| Grep.ReadLoop | syscalls/ece391grep.c:20-60 | the loop terminates having printed all that is owed for the file |
| Grep.GrepFile | syscalls/ece391grep.c:20-60 | the output is the report on what the windows make of the file, for every pattern, every file without NUL and every initial content of the buffer |
| Grep.DoOneFile | syscalls/ece391grep.c:9-66 | Main result: the whole function: result, output and descriptor table, for an existing and for a missing file and every initial content of the buffer; the same descriptors are in use afterwards |
| Grep.FirstSegment | syscalls/ece391grep.c:28-57 | where the window cuts the next segment off a file |
| Grep.ReportSplits | syscalls/ece391grep.c:28-57 | the report on a text is the report on the window's first line and on the rest |
| Grep.WindowsPay | syscalls/ece391grep.c:28-57 | the same for a full window in front of a newline |
| Grep.ShortLinesSegments | syscalls/ece391grep.c:33-38 | if all lines fit the window, the segments selected by any pattern are the lines selected by it |
| Grep.SegmentsAreShort | syscalls/ece391grep.c:22 | no segment is longer than the window |
| Grep.WindowsAreShort | syscalls/ece391grep.c:22 | no line that grep sees is longer than the window |
| Grep.WindowsSelect | syscalls/ece391grep.c:33-56 | the right lines are selected if they fit and no window that a newline happens to end cuts one |
| Grep.LongLineMissed | syscalls/ece391grep.c:22 | a line longer than the window is missed by a pattern of one byte that occurs in the file |
| Grep.CutLineMissed | syscalls/ece391grep.c:33 | if a window cuts a line in two, some pattern of one byte that occurs in the file selects wrongly |
| Grep.ExactIff | syscalls/ece391grep.c:9-66 | Main result: the selected lines are right for every pattern without NUL, and already for every pattern of one byte, exactly if no line is longer than 1024 bytes and, should the byte behind the buffer start out as a newline, the first full window that does not end in one ends at a line's end |
| Grep.ReportTells | syscalls/ece391grep.c:45-48 | the selected lines can be read off the output, for a file name without newline |
| Grep.WrongReport | syscalls/ece391grep.c:9-66 | in every other case some pattern of one byte that occurs in the file gets a wrong output |
| Grep.OutputExactIff | syscalls/ece391grep.c:9-66 | Main result: what is printed is right for every pattern without NUL exactly in the cases of ExactIff |
| Grep.ReportIsOfLines | syscalls/ece391grep.c:40-51 | on such a file the output is that of searching the file's lines one by one |
| Grep.ReportOfSelected | syscalls/ece391grep.c:45-48 | the output depends on the selected lines only, each printed once and in order |
| Grep.SelectedAreLines | syscalls/ece391grep.c:42-51 | nothing is selected that is not a line |
| Grep.SelectedIsThere | syscalls/ece391grep.c:42-51 | every line that contains the pattern is selected |
| Grep.SelectedFrom | syscalls/ece391grep.c:28-57 | the selected lines are those at the places that match, each once, in increasing order |
| Grep.WindowsLoseNothing | syscalls/ece391grep.c:20-60 | for every file and initial buffer, the pieces that grep searches are together the file's bytes but its newlines |
| Grep.OutputInOrder | syscalls/ece391grep.c:9-66 | Main result: on an exact file the output's lines are the headed lines of the file that contain the pattern, each once and in order |
| Grep.OutputFindsIff | syscalls/ece391grep.c:9-66 | Main result: on an exact file a headed line is printed exactly if it is a line of the file and equals x + s + y with s not empty |
| Memory.ReplicateBytes | student-distrib/lib.c:443 | all four bytes of the stored double word are the fill byte |
| Memory.Memset | student-distrib/lib.c:413-447 | for every alignment and count exactly the n bytes are set |
| Memory.CopiedOn | student-distrib/lib.c:503-516 | a copy in two parts, the second of what the first has left, is one copy of the old bytes |
| Memory.CopyBytes | student-distrib/lib.c:498-507 | the byte loop copies bytes as far as it goes: to a double word boundary or to the end |
| Memory.CopyWords | student-distrib/lib.c:511-515 | the double word move copies the old bytes, even where it overwrites its own source ahead of it |
| Memory.Memcpy | student-distrib/lib.c:496-533 | for every alignment and count the destination gets the source's old bytes and nothing else changes |
| Memory.Memmove | student-distrib/lib.c:542-560 | Main result: the same for every overlap |
| Numbers.NumeralRoundTrip | student-distrib/lib.c:345-375 | Main result: parsing a number's text gives the number; the text has no leading zero and the minimal number of digits |
| Numbers.DigitsParse | student-distrib/lib.c:363-368 | the digits by repeated division denote the value in the positional system |
| Numbers.DigitsLead | student-distrib/lib.c:363-368 | the most significant digit is not zero |
| Numbers.DigitsCount | student-distrib/lib.c:363-368 | the number of digits is the one that the value needs |
| Numbers.DigitIs | student-distrib/lib.c:346 | the digits are 0 to 9 and A to Z, in this order |
| Numbers.ParseFirst | student-distrib/lib.c:363-368 | the first digit of a numeral counts for its value times a power of the radix |
| Numbers.U32Digits | student-distrib/lib.c:212 | the conversion buffers are long enough for every 32-bit value |
| Numbers.LeadingZeros | student-distrib/lib.c:199-202 | zeros in front do not change what the digits denote |
| Bytes.Strlen | student-distrib/lib.c:400-405 | the number of bytes before the terminator |
| Bytes.CStringBefore | student-distrib/lib.c:400-405 | a stored string is what stands before its first NUL, whatever is behind it |
| Numbers.Strrev | student-distrib/lib.c:381-394 | the string is reversed in place and nothing else changes |
| Numbers.DigitLoop | syscalls/ece391support.c:69-74 | the digits of the value stand in the buffer, least significant first |
| Numbers.Itoa | student-distrib/lib.c:345-375 | the buffer holds the number's text, terminated, for every radix of 2..36, and nothing else changes |
| Numbers.Puts | student-distrib/lib.c:267-274 | exactly the string's bytes are sent to the console, and their number is returned |
| Numbers.PrintUnsigned | student-distrib/lib.c:190-193 | `%x` and `%u` print the number's text |
| Numbers.PadTo8 | student-distrib/lib.c:197-203 | eight characters start at the returned index: zeros, then the digits |
| Numbers.PrintHex8 | student-distrib/lib.c:194-204 | `%#x` prints exactly eight digits that denote the value |
| Numbers.SignedRoundTrip | student-distrib/lib.c:223-229 | Main result: parsing a signed number's text gives the number, the most negative one included; the text starts with a minus sign exactly if the number is negative |
| Numbers.PrintSigned | student-distrib/lib.c:220-231 | `%d` prints text that denotes the value, the most negative one included |
| Numbers.DigitsAreDigits | student-distrib/lib.c:224-229 | an unsigned number's text never starts with a minus sign |
| Screens.Put | student-distrib/lib.c:280-337 | every byte keeps the cursor within the 25 rows and the one before them; what it shows is pinned down by PutShows, PutKeepsReadable and AboveTheScreen |
| Screens.LeavesTheScreenIff | student-distrib/lib.c:292-312 | the cursor leaves the screen exactly on a backspace at the first cell |
| Screens.BackspaceAtOrigin | student-distrib/lib.c:302-311 | that backspace clears the whole screen |
| Screens.AboveTheScreen | student-distrib/lib.c:280-337 | what each byte does to the screen and the cursor while that is in the row before the screen |
| Screens.PutKeepsReadable | student-distrib/lib.c:292-332 | every byte keeps every cell of the screen in attribute 7 |
| Screens.ScreenIsReadable | student-distrib/lib.c:19-337 | after clear and any bytes all 2000 cells have attribute 7 |
| Screens.NewlineShows | student-distrib/lib.c:281-289 | a line end keeps the screen in step with the paper, scrolling if need be |
| Screens.EraseInRowShows | student-distrib/lib.c:292-312 | so does a backspace within a row |
| Screens.EraseAcrossRowsShows | student-distrib/lib.c:302-311 | so does a backspace to the row before |
| Screens.PrintInRowShows | student-distrib/lib.c:314-322 | so does a character before the last column, or a NUL |
| Screens.PrintLastColumnShows | student-distrib/lib.c:324-332 | so does a character in the last column above the last row |
| Screens.PrintLastCellShows | student-distrib/lib.c:324-332 | so does a character in the last cell, which scrolls |
| Screens.PutShows | student-distrib/lib.c:280-337 | every byte but a backspace on the first cell keeps the screen a window on the unbounded paper |
| Screens.RunDisplays | student-distrib/lib.c:280-337 | so does every run of such bytes |
| Screens.ClearDisplays | student-distrib/lib.c:19-30 | after clear the screen shows empty paper |
| Screens.WrapPlaces | student-distrib/lib.c:324-332 | row r of a wrapped line holds its characters from 80 r on, and how many rows there are |
| Screens.WrappedFirst | student-distrib/lib.c:281-289 | a newline starts a new row, and the rest of the text is wrapped from there |
| Screens.PlainTyped | student-distrib/lib.c:281-318 | a return is typed as a newline and a NUL as nothing |
| Screens.WrapExtended | student-distrib/lib.c:319-332 | a character at the end of a line extends its wrapped rows, or starts a new one |
| Screens.WrappedExtended | student-distrib/lib.c:281-332 | the same for a whole text and its newlines |
| Screens.PaperIsWrapped | student-distrib/lib.c:280-337 | the paper typed is the text wrapped at 80 columns, and its last 25 rows are shown |
| Screens.ScreenIsLastRows | student-distrib/lib.c:19-337 | Main result: after clear and any bytes but backspaces the screen shows the last 25 wrapped rows, blank after the cursor, which is at the end of the text |
| Screens.EraseUndoes | student-distrib/lib.c:292-332 | on paper, a backspace undoes any printable character, wraps included |
| Screens.RowsGrow | student-distrib/lib.c:319-332 | how far printing moves the cursor, and what scrolls away |
| Screens.ErasedTo | student-distrib/lib.c:292-335 | after k characters and k - i backspaces the screen shows the paper as it was after i characters |
| Screens.PrintThenErase | student-distrib/lib.c:292-335 | k characters and k backspaces give back paper and cursor, if the starting row is still shown |
| Screens.ShowsItsPaper | student-distrib/lib.c:280-337 | every screen that is blank from the cursor on shows some paper with nothing scrolled away |
| Screens.ErasingRestores | student-distrib/lib.c:292-335 | Main result: on every such screen, k backspaces undo k printed characters, cell by cell, but for the rows scrolled away, if (column + k) / 80 is at most 24 |
| Screens.ErasingIsSafeIff | student-distrib/lib.c:292-335 | Main result: on every such screen, the backspaces stay on the screen exactly in that case |
| Screens.StillShownIff | student-distrib/lib.c:125-134 | the starting row is still shown exactly if at most 24 rows were finished |
| Screens.ErasingStaysOnIff | student-distrib/lib.c:292-335 | k backspaces after k characters stay on the screen exactly if (column + k) / 80 is at most 24 |
| Screens.ErasingLeaves | student-distrib/lib.c:302-311 | otherwise some number of backspaces moves the cursor off the screen |
| Screens.BoundaryAtTop | student-distrib/lib.c:125-134 | otherwise a row boundary of the printed text is at the top of the screen |
| Display.Console.StoreCell | student-distrib/lib.c:320-321 | one cell, character and attribute, is stored and no other byte changes |
| Display.Console.ClearTopRow | student-distrib/lib.c:80-87 | every cell from the row on is cleared, although the name says one row |
| Display.Console.Scroll | student-distrib/lib.c:125-134 | the rows move up by one and the last is cleared, in place |
| Display.Console.Clear | student-distrib/lib.c:19-30 | the 25 rows become spaces and the cursor goes to the origin |
| Display.Console.Putc | student-distrib/lib.c:280-337 | memory and cursor take the step of the screen specification, attribute bytes included; no byte outside the 26 rows changes |
| Display.Console.Puts | student-distrib/lib.c:267-274 | putting a string is putting its bytes one after the other |
| Display.Console.ClearAndPuts | student-distrib/lib.c:19-337 | Main result: from bytes to video memory: after clear and any bytes but backspaces, every character byte and every attribute byte of the 25 rows |
| Display.Console.PutStep | student-distrib/lib.c:280-337 | a putc is a step of the three-terminal machine |
| Display.Console.CopyPage | student-distrib/syscall.c:764 | a page copy moves all 4096 bytes and changes no other |
| Display.Console.Save | student-distrib/syscall.c:757-764 | the active terminal's cells and cursor go to its backing store |
| Display.Console.Load | student-distrib/syscall.c:767-780 | another terminal's cells and cursor come to the screen |
| Display.Console.DisplaySwitch | student-distrib/syscall.c:746-785 | the switch of the terminal machine, byte for byte in both pages |
| Display.Handle | student-distrib/syscall.c:746-785 | every putc, and every switch with the cursor on the screen, is a step of the terminal machine |
| Display.Play | student-distrib/syscall.c:746-785 | Main result: every run of them on physical memory is a run of that machine, so that each terminal behaves like a private console |
| Terminals.SwitchKeepsEveryScreen | student-distrib/syscall.c:757-780 | a switch makes its terminal the active one and changes no terminal's screen or cursor |
| Terminals.SwitchKeepsCursorIff | student-distrib/lib.c:93-119 | away and back restores the cursor exactly if it was on the screen |
| Terminals.SwitchThereAndBack | student-distrib/syscall.c:757-780 | away and back restores video memory and cursor |
| Terminals.PutDependsOnVisible | student-distrib/lib.c:280-337 | what putc does to the 25 rows depends on nothing but them and the cursor, the row before them included |
| Terminals.StepOk | student-distrib/syscall.c:746-785 | a putc changes the active terminal's screen only, a switch with the cursor on the screen none |
| Terminals.StepPrivateIff | student-distrib/syscall.c:746-785 | Main result: a step treats each terminal as a private console of its own exactly if it is not a switch with the cursor off the screen |
| Terminals.AsIfPrivate | student-distrib/syscall.c:746-785 | Main result: over every run whose switches happen with the cursor on the screen, backspaces anywhere included, each terminal's screen is that of a private console given just the bytes put while it was active |
| Terminals.OtherwiseACursorMoves | student-distrib/syscall.c:746-785 | every other run comes to a switch that moves the cursor of the terminal it leaves |
| Blinking.WalkedSoFar | fish/blink.S:60-90 | after k steps of the walk the first k nodes have ticked and the others not |
| Blinking.WalkedAll | fish/blink.S:58-90 | the walk over the list is one simultaneous tick |
| Blinking.NextPlace | fish/blink.S:64-86 | one tick moves a node one place on in its period, through the signed 16-bit compare |
| Blinking.TicksOfStarted | fish/blink.S:64-86 | k ticks move it k places around |
| Blinking.PlaceIsMod | fish/blink.S:64-86 | which is k modulo the period |
| Blinking.OnIff | fish/blink.S:64-86 | a started node is on after k ticks exactly if k falls in the on part of its period |
| Blinking.LastsAsLongAsGivenIff | fish/blink.S:64-66 | the on phase lasts as long as the structure says exactly for lengths of 1 to 32768 |
| BlinkRuns.TickScreenElsewhere | fish/blink.S:43-47 | a tick changes no byte where no node stands |
| BlinkRuns.TickScreenAtNode | fish/blink.S:68-81 | a tick pokes a node's cell exactly if it toggles, with the character of its new status |
| BlinkRuns.TickAgrees | fish/blink.S:60-90 | a tick keeps every listed cell in agreement with its node's status |
| BlinkRuns.StepAgrees | fish/blink.S:49-237 | so does every addition at a new location, removal and search |
| BlinkRuns.ScreenAgrees | fish/blink.S:49-237 | so does every run of them: the cell shows the on character exactly if the status is on |
| BlinkRuns.SyncAgreesIff | fish/blink.S:277-285 | sync keeps the agreement exactly if the copied status is off or the two characters are equal |
| BlinkRuns.AddedExactly | fish/blink.S:105-184 | an addition succeeds exactly for a location below 2000 and fewer than 2000 nodes; then one node more is listed, on, found by a search, and shown |
| BlinkRuns.RemovedExactly | fish/blink.S:187-237 | a removal succeeds exactly if the location is listed; then exactly the first node there leaves the list, the multiset of nodes losing just that one |
| BlinkRuns.RemovedIsGone | fish/blink.S:206-222 | with distinct locations the location is not listed any more |
| BlinkRuns.RemovedForGood | fish/blink.S:49-300 | Main result: over every run without an addition at its location, no search finds a removed node |
| BlinkRuns.SyncedExactly | fish/blink.S:240-300 | a sync succeeds exactly if both locations are listed; then the second node has the first one's rhythm, its cell the off character, and nothing else changes |
| BlinkRuns.AddedLeavesAlone | fish/blink.S:159-162 | an addition elsewhere does not touch a listed node |
| BlinkRuns.RemovedLeavesAlone | fish/blink.S:206-217 | nor does a removal elsewhere |
| BlinkRuns.SyncedLeavesAlone | fish/blink.S:267-275 | nor does a sync of another node, even with this one |
| BlinkRuns.OnlyTicksMatter | fish/blink.S:49-300 | among whatever other events a node lives through the ticks and nothing else |
| BlinkRuns.BlinksOnTime | fish/blink.S:49-300 | Main result: a node added to any list is on after n ticks exactly if n modulo its period is below its on length, whatever happens to others |
| BlinkRuns.SameRhythmLater | fish/blink.S:60-90 | equal lengths, countdown and status stay equal |
| BlinkRuns.SyncedStayTogether | fish/blink.S:240-275 | Main result: two synchronised nodes go on and off together until one is removed, replaced or synchronised again |
| Pool.FullIff | fish/fish.c:160-170 | the allocation fails exactly if the list holds all 2000 slots |
| Pool.PushedOkIff | fish/blink.S:140-162 | an addition keeps pool and list in order exactly if the location is not 0 |
| Pool.AddingAtZeroMakesALoop | fish/fish.c:164 | Main result: after an addition at 0 the next one takes the same slot and links it to itself |
| Pool.UnlinkedOk | fish/blink.S:206-222 | unlinking and clearing a listed slot keeps pool and list in order |
| Pool.UnlinkedLinked | fish/blink.S:214-217 | the rest of the list stays linked in its order |
| Pool.UnlinkedNodes | fish/blink.S:214-222 | exactly one node leaves the list |
| Pool.OverwrittenOk | fish/blink.S:267-275 | overwriting a node but for location and link keeps pool and list in order |
| Pool.Blink.constructor | fish/fish.c:28 | the cleared pool is in order and its list is empty |
| Pool.Blink.Poke | fish/blink.S:43-47 | one byte of video memory changes |
| Pool.Blink.Malloc | fish/fish.c:160-170 | the first slot with location 0, or none |
| Pool.Blink.FindHelper | fish/blink.S:351-379 | the slot of the first node at the location, or null; the walk ends |
| Pool.Blink.Add | fish/blink.S:105-184 | refines the addition to a list of nodes, its result included; at location 0 the pool is left out of order in the way stated |
| Pool.Blink.FindLink | fish/blink.S:206-212 | the search for the link to a listed node ends at exactly that link |
| Pool.Blink.Unlink | fish/blink.S:214-222 | the link skips the node and its slot is cleared |
| Pool.Blink.RemoveSlot | fish/blink.S:206-222 | exactly the given node leaves the list, the others keep their order and the screen stays |
| Pool.Blink.Remove | fish/blink.S:187-237 | refines the removal from the list of nodes, of which RemovedExactly and RemovedIsGone say what it does; pool and list stay in order |
| Pool.Blink.Find | fish/blink.S:302-349 | the first node at the location, or failure, exactly if there is none |
| Pool.Blink.Overwrite | fish/blink.S:268-275 | one node of the list changes, the others and the order do not |
| Pool.Blink.CopyRhythm | fish/blink.S:267-285 | one listed node takes over lengths, countdown and status of another and is shown with its off character; no other node and no other byte changes |
| Pool.Blink.Sync | fish/blink.S:240-300 | refines the synchronisation of two nodes, the displayed off character included |
| Pool.Blink.CountDown | fish/blink.S:64-66 | one node counts down, the others, the order and the screen stay |
| Pool.Blink.Toggle | fish/blink.S:68-86 | one node starts its other phase and its cell shows the character, nothing else changes |
| Pool.Blink.TickSlot | fish/blink.S:64-89 | one node's tick, on the pool and on the screen |
| Pool.Blink.RtcTasklet | fish/blink.S:49-99 | the walk ends and is one tick of the list of nodes |
| Pool.Handle | fish/blink.S:49-300 | each of the five operations is a step of the list of nodes and keeps pool and list in order |
| Pool.PlayTrace | fish/blink.S:49-300 | every run with nonzero locations leaves the list acyclic and holding exactly the slots in use, and leads through the engines of the specification |
| Pool.Play | fish/blink.S:49-300 | Main result: so the engine in memory ends as the run of the list of nodes does, which carries the run theorems over to it |
| Pool.RemoveAndSearch | fish/blink.S:187-349 | in memory too: a node removed, any run without an addition there, and a search for it, which fails |
| Frames.LineLeftNext | fish/fish.c:102-116 | how one character read moves a reader along its line |
| Frames.ReadChar | fish/fish.c:104-107 | a read of one character takes the next of the file, or none at its end |
| Frames.ReadMoves | fish/fish.c:102-108 | the reader moves one column on and has less of its file ahead |
| Frames.NextChar | fish/fish.c:102-108 | a reader's turn yields the character in its column, or a newline from the end of the line on |
| Frames.NextChars | fish/fish.c:102-116 | both turns, neither disturbing the other |
| Frames.InkCell | fish/fish.c:121-128 | a node is added exactly if one of the two characters is not a blank, and the screen shows it |
| Frames.WidthReached | fish/fish.c:118 | both readers stand on a newline exactly at the width of the longer line |
| Frames.Column | fish/fish.c:100-130 | one turn of the inner loop; it ends exactly at the width of the longer line |
| Frames.FrameRow | fish/fish.c:99-130 | the inner loop adds exactly the nodes of the row and leaves both readers at the end of their lines |
| Frames.RowStart | fish/fish.c:98-102 | at the start of a row a reader has the file's line of that number before it |
| Frames.EndRow | fish/fish.c:132-144 | a finished file is closed, its descriptor is free, and its reader stays on a newline; another one goes on |
| Frames.EndRows | fish/fish.c:132-144 | both files at the end of a row, neither disturbing the other |
| Frames.RowTurn | fish/fish.c:98-147 | one turn of the outer loop for two given lines |
| Frames.AddRow | fish/fish.c:98-147 | the same in terms of the files' lines; the two files together get shorter |
| Frames.RowLoop | fish/fish.c:98-147 | the outer loop terminates having gone through all lines of both files |
| Frames.AddRows | fish/fish.c:98-147 | from the start of two files to the nodes of the two frames and the screen that shows the first |
| Frames.OpenFrame | fish/fish.c:91-96 | a frame file is opened at its start and disturbs no other descriptor |
| Frames.OpenFrames | fish/fish.c:91-96 | both files are opened on descriptors that were free, or the program halts |
| Frames.AddFrames | fish/fish.c:78-148 | exactly one node per position where one of the frames has a character is in the list, the screen shows the first frame over what was there, and no descriptor is left open; it halts exactly if a file cannot be opened |
| Frames.AddShowsOver | fish/blink.S:164-170 | an addition at a new location keeps the nodes shown over the rest of the screen |
| Frames.TickShowsOver | fish/blink.S:49-99 | so does a tick |
| Frames.TicksShowOver | fish/fish.c:41-44 | so does any number of ticks, and each node has ticked that often |
| Frames.FrameHasInk | fish/fish.c:122-127 | every position with ink has a node |
| Frames.FrameIsInk | fish/fish.c:122-127 | every node stands at a position with ink |
| Frames.BlankRows | fish/fish.c:98-147 | rows after the end of both files add nothing |
| Frames.ShownAfter | fish/fish.c:86-87 | after n ticks a frame node shows the first character if n / 15 is even, else the second |
| Frames.FramesAlternate | fish/fish.c:34-44 | after n ticks every position with ink shows the first frame if n / 15 is even and the second if it is odd |
| Frames.AllAlternate | fish/fish.c:34-44 | the same at every position of the 25 rows and 40 columns |
| Frames.BlankHoldsFrame | fish/fish.c:34-44 | where the screen was blank, it holds the current frame, its blanks included |
| Frames.Animate | fish/fish.c:41-44 | n turns of the wait loop are n ticks of the list of nodes |
| Frames.ShowFrames | fish/fish.c:34-148 | Main result: from two files to video memory: after n ticks every position where one of the frames has a character holds the first frame's byte if n / 15 is even and the second's if it is odd; on a blank half of the screen the current frame stands as in its file; every other byte and every descriptor in use is what it was |
| Frames.RestUntouched | fish/fish.c:34-44 | every other byte of the screen is what it was before |
| Arguments.ArgsAreWords | syscalls/ece391emulate.c:88-98 | a command without newlines, or with only a final one, is cut into its words between spaces |
| Arguments.ArgsAreIsWords | syscalls/ece391emulate.c:88-98 | no argument is empty or contains a separator |
| Arguments.ArgsOfJoin | syscalls/ece391emulate.c:88-157 | tokenising joined words gives the words back |
| Arguments.Retokenised | syscalls/ece391emulate.c:76-157 | Main result: tokenising, joining and tokenising again gives the same arguments for every command |
| Arguments.FirstArg | syscalls/ece391emulate.c:88-98 | a word that a space, a newline or the end follows is the first argument, and the rest is tokenised from behind that |
| Arguments.NoMoreArgs | syscalls/ece391emulate.c:88-90 | a newline where a word could start ends the arguments |
| Arguments.CommandLineIs | syscalls/ece391emulate.c:76-98 | a name and words with single spaces between them are passed on as they are, the name as a path |
| Arguments.SpaceInFront | syscalls/ece391emulate.c:78-98 | spaces in front of a command leave the path empty and the name an argument |
| Arguments.ScanWord | syscalls/ece391emulate.c:95 | the scan ends at the word's end |
| Arguments.SkipSpaces | syscalls/ece391emulate.c:89 | skipping spaces loses no argument |
| Arguments.EndWord | syscalls/ece391emulate.c:94-97 | the word is terminated in place, earlier arguments and the text ahead are untouched |
| Arguments.TakeWord | syscalls/ece391emulate.c:94-97 | the argument found is the next of the text |
| Arguments.TakeWords | syscalls/ece391emulate.c:88-98 | the loop ends with a pointer to each argument in the buffer, in order |
| Arguments.LoadCommand | syscalls/ece391emulate.c:78-80 | the buffer holds the path prefix and the command |
| Arguments.Tokenise | syscalls/ece391emulate.c:68-100 | the argument pointers point to the path and the arguments, all terminated in one buffer; a command beyond 1023 bytes is refused |
| Arguments.CopyWord | syscalls/ece391support.c:14-17 | a string is copied with its terminator and nothing else changes |
| Arguments.AppendWord | syscalls/ece391emulate.c:143-144 | what is written grows by one argument |
| Arguments.PrefixNext | syscalls/ece391emulate.c:139-152 | the parts written one after the other are the joined arguments |
| Arguments.TakeArg | syscalls/ece391emulate.c:139-146 | an argument is added if it fits, and the byte at nbytes is overwritten exactly if it ends there |
| Arguments.HitsOnlyAt | syscalls/ece391emulate.c:139-152 | whether some joined first arguments are nbytes long is decided as soon as they reach that length |
| Arguments.HitsOrFits | syscalls/ece391emulate.c:139-152 | arguments that fit do not hit nbytes; a first argument of nbytes does |
| Arguments.JoinArgs | syscalls/ece391emulate.c:132-157 | Main result: success exactly if the arguments joined by single spaces are shorter than nbytes, and then the buffer holds them; the byte at nbytes is overwritten exactly if some first arguments, joined, are nbytes long, and in no other case is there need for it; nothing behind it changes |
| Arguments.TakeName | student-distrib/syscall.c:339-347 | the name in front of the command is stored, terminated, in any buffer with room for it |
| Arguments.TakeArguments | student-distrib/syscall.c:355-358 | all between the space after the name and the end of the line is stored, terminated, in any buffer with room for it |
| Arguments.NameIs | student-distrib/syscall.c:339-359 | of a name longer than 32 bytes 32 are taken; then, and if no space follows the name, there are no arguments |
| Arguments.ParseCommand | student-distrib/syscall.c:322-359 | name and argument text of the command, in buffers of any size with room for them; failure exactly for an empty name; nothing changes behind the longer of the 32 or 128 bytes and what is stored |
| Arguments.StrcpyAll | student-distrib/lib.c:594-602 | a string is copied with its terminator and nothing after it changes |
| Arguments.Getargs | student-distrib/syscall.c:588-610 | the stored argument text, exactly if nbytes is at least its length plus one, else nothing is written |
| Arguments.PassArguments | student-distrib/syscall.c:322-610 | Main result: the path from execute to getargs as a whole |
| Arguments.ArgumentsVerbatim | student-distrib/syscall.c:353-359 | the argument text of "name args" is args verbatim, at the end of the command and in front of a newline with anything behind it |

## Left out

- Grep.DoOneFile: for a regular file without NUL bytes, or a missing name.  On a well-formed image the branches for failing reads and closes cannot be reached.  The loop of grep's `main` over the directory is not part of this model.
- Descriptors.Process.Read: the terminal and clock drivers are not part of this model, so reads of descriptor 0 and of clock descriptors are excluded; the directory cursor stays where its unchecked index finds an entry within the image.  The directory cursor is one global of the kernel and is modelled for one process.
- FileSystem.ReadData: requests that go past the 1023 block numbers of an inode, where the code takes block numbers from whatever follows, and offsets of 32 bits and more.
- Directory.ReadDentryByIndex: the code does not check the index; an index whose entry does not lie within the image is left out.
- Streams.Perform: not for reads of descriptor 0 and of clock descriptors, as for Descriptors.Process.Read.
- Streams.PerformAll: no call concerns the keyboard or the clock, one buffer as large as the largest file serves all reads, and the image is long enough for every value of the 8-bit directory cursor.
- BlinkRuns.RemovedForGood: no location is listed twice when the node is removed; otherwise the next node there is found.
- Programs.Cat: the name is given as a parameter and leads to no entry or to a regular file; writes do not fail.
- Programs.Ls: the directory has an entry with an empty name, at which the listing ends; writes do not fail.
- Memory.Memcpy: not for a destination inside the source area, where the routine makes no promise.
- Memory.Memmove: the processor's direction flag, which the routine leaves set after a backward move, is not modelled.
- Pool.Blink.Add: the copies from the caller cannot fail, as in the program's own copy routine; lengths and location are 16-bit fields.
- Pool.Play: no addition at location 0, after which the list may have a cycle (Pool.AddingAtZeroMakesALoop) and a walk need not end.
- Frames.AddFrames: frames of at most 25 lines of at most 40 columns and an empty list, as the screen's right half demands.  The fixed sequence of fish's `main` and the mapping of video memory are not part of this model.
- Arguments.ParseCommand: the kernel's two buffers are given with the room that name and argument text need behind their 32 and 128 bytes, at most 32 bytes of the name being taken; what lies behind them in the kernel is not part of this model, nor are the `quit` command and the loading of the program.
- Arguments.JoinArgs: a call that overwrites the byte at nbytes is given a buffer that has it.
- Display.Console.DisplaySwitch: the change of page tables, the saved stack pointers and the first shell of a terminal are left out; later output is a putc step.
- Terminals.AsIfPrivate: the backing pages start with arbitrary cells and a cursor on the screen; a switch with the cursor off the screen ends the run, and Terminals.OtherwiseACursorMoves says that it moves a cursor.
- The hardware cursor's ports, written after every putc and switch.
- The format loop of `printf`, which only dispatches to the conversions.
- Process bookkeeping in `execute` and `halt`, the scheduler and context switch: inline assembly whose process ids keep no clean invariant.
- Keyboard line editing: one global counter guards three per-terminal buffers, so there is no invariant to state.
- Interrupt, paging, clock and boot set-up: device effects and constants.
- The emulator's processes, memory maps and directory calls, which belong to the host system.
- The small programs shell, hello, counter, pingpong, sigtest and syserr, which would add only easy members.
