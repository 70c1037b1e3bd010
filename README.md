# intro_cpp in Dafny

This project models four pieces of the intro_cpp course repository and
proves what each of them promises.

- **asg2: `bigint`.** dc-style arbitrary-precision integers. A number is a
  sign flag and a little-endian vector of decimal digits. The model has:
  - the constructors from `long` and from a string (`_` is dc's minus sign);
  - `trim`;
  - the schoolbook `do_bigadd`, `do_bigsub` and `do_bigmul`;
  - `do_bigless`, `==` and `<`;
  - `div_by_2` and `mul_by_2`;
  - the binary long division behind `/` and `%`;
  - `pow` and `operator<<`.

  Every digit vector is tied to the integer it denotes (`Digits.ValueOf`,
  `BigInts.Val`). Every operation is proved against ordinary integer
  arithmetic.
- **asg1: the `yshell` in-memory file system.**
  - Inodes are numbered from a counter and kept in a map from inode
    number to node.
  - Directories map names to inode numbers, with `.` and `..`.
  - The `inode_state` class holds the root, the cwd and the prompt.
  - Paths resolve from the root or the cwd.
  - The model has the shell commands `cd`, `echo`, `exit`, `make`,
    `mkdir`, `prompt`, `pwd`, `rm` and `rmr`, plus the command table.
  - Every update keeps the tree well formed: `.` is the directory itself,
    `..` is its parent, and the root is its own parent.
- **asg3: the key/value line interpreter.**
  - `trim` is pure.
  - `scan_file` reads lines one at a time.
  - Each trimmed line is one of: a comment, a lookup, `key = value`,
    `key =`, a bare `=`, or `= value`.
  - It updates a `listmap<string,string>` in place and reports what it
    prints.
- **asg5: the cix file-transfer protocol.**
  - A 64-byte header is followed by an optional payload. The header is a
    4-byte length in network order, a command byte and a 59-byte
    filename.
  - The client tokenises a command line, looks up the command and
    validates the arguments. Then it runs `ls`, `put`, `get` or `rm` over
    the connection.
  - The server answers one header at a time.
  - Payloads move in chunks of at most 1024 bytes.
  - The connection is a socket whose peer bytes wait in `inbox` and whose
    sent packets are recorded in `sent`.
  - Each host's directory is an abstract store that reports errno values.
  - The `CixProtocol` lemmas join the two programs. Each one feeds what
    the client sends to the server's loop, then feeds the server's reply
    back to the client.

Each source file is modelled in its own form. Loops that mutate vectors
and accumulators are methods with loop invariants, and `do_bigmul` works
in place on an `array`. The inode state, the listmap and the socket are
classes whose methods update their fields. Pure decisions are functions,
and the properties that relate several calls are lemmas.

Some source files are not part of this model:
- `cix_protocol.h` (the header layout and the command codes);
- `sockets.h` (`send_packet`, `recv_packet`);
- `listmap.h`;
- the `split` that asg1's commands call.

The model assumes the following about them:
- The command codes are numbered in the order of the cix enumeration
  (ERROR, EXIT, GET, HELP, LS, PUT, RM, FILE, LSOUT, ACK, NAK).
- The header holds the length, then the command byte, then the filename:
  the one order of the three fields that fills 64 bytes without padding.
  The order of the fields does not affect any property proved here.
- `recv_packet` either delivers exactly the bytes asked for or fails with
  `socket_error`.
- asg1's `split` behaves like the client's `split`: it returns the maximal
  runs of characters that are not delimiters.
- The host is little-endian.
- errno values follow Linux: ENOENT 2, EACCES 13, EISDIR 21.

## Model

| member | source | states |
|---|---|---|
| Digits.Strip | asg2/bigint.cpp:426-432 | the trimmed vector is a prefix of the input, ends in a non-zero digit or is empty, drops only zeros and keeps the value |
| Digits.Trim | asg2/bigint.cpp:426-432 | popping trailing zeros in a loop yields exactly the stripped vector |
| Digits.ValueInjective | asg2/bigint.cpp:426-432 | two trimmed digit vectors with the same value are equal, so trimming gives one representation per number |
| Digits.CompareFromTop | asg2/bigint.cpp:88-93 | the scan from the top digit down reports below, same or above exactly as the values compare |
| Digits.BigLess | asg2/bigint.cpp:84-94 | `do_bigless` decides by length first, then by value; on trimmed vectors it holds exactly when the left value is smaller |
| Digits.BigAdd | asg2/bigint.cpp:335-370 | the result has digits 0..9 and the value of the sum, with length max(\|l\|,\|r\|), one more exactly when a carry remains |
| Digits.BigSub | asg2/bigint.cpp:372-406 | the result has digits 0..9 and length max(\|l\|,\|r\|); its value is l - r when l >= r, and l - r + 10^len otherwise (the borrow is dropped) |
| Digits.BigMul | asg2/bigint.cpp:408-424 | the result has length \|l\|+\|r\|, digits 0..9 and the value of the product |
| Digits.MulRow | asg2/bigint.cpp:412-420 | one pass of the inner loop adds left[li]·right·10^li to the buffer, leaving a carry digit and no change above the row |
| BigInts.SignOfVal | asg2/bigint.cpp:78 | in a well-formed bigint the sign flag is set exactly when the value is negative, so zero is never negative |
| BigInts.ValEqual | asg2/bigint.cpp:286-295 | two well-formed bigints are equal as records exactly when their values are equal |
| BigInts.TruncRem10 | asg2/bigint.cpp:51 | C++ `%` by 10 truncates toward zero: the remainder is a digit 0..9 or its negation, following the sign of the argument |
| BigInts.TruncQuot10 | asg2/bigint.cpp:52 | C++ `/` by 10 truncates toward zero and strictly shrinks a non-zero argument, so the loop ends |
| BigInts.FromLongAsWritten | asg2/bigint.cpp:45-56 | the constructor as written: right for `that >= 0`; for a negative `that` it stores negative digits whose plain value is `that` |
| BigInts.FromLong | asg2/bigint.cpp:45-56 | the corrected constructor yields a well-formed bigint of value `that` for every `long` |
| BigInts.DigitCodes | asg2/bigint.cpp:65-76 | reading the string from the back collects one digit per non-`_` character, in 0..9 when the string holds only digits and `_` |
| BigInts.FromString | asg2/bigint.cpp:58-80 | the string constructor builds exactly the parsed bigint: stripped digits, negative when a `_` occurs and the value is non-zero |
| BigInts.DigitCodesValue | asg2/bigint.cpp:58-80 | the collected little-endian vector has the value of the usual left-to-right reading of the numeral |
| BigInts.ParsedValue | asg2/bigint.cpp:58-80 | a string of digits and `_` parses to a well-formed bigint whose value is the numeral's value, negated when `_` occurs |
| BigInts.Print | asg2/bigint.cpp:434-460 | `operator<<` writes `-` for a negative number, the digits from the most significant down, and `0` for the empty vector |
| BigInts.NumeralCodes | asg2/bigint.cpp:444-448 | reading back the printed digits of a vector gives the same vector, and the printed digits contain no `_` |
| BigInts.PrintedReadsBack | asg2/bigint.cpp:434-460 | printing a bigint with `_` in place of `-` and parsing the text returns the same bigint |
| BigInts.CodesNumeral | asg2/bigint.cpp:58-80 | the digit codes read from a string of decimal digits print back as that string |
| BigInts.ParsedPrints | asg2/bigint.cpp:58-80 | parsing a numeral without leading zeros, after an optional `_`, gives a well-formed bigint that prints as the same digits, with `-` for the `_` |
| BigInts.Add | asg2/bigint.cpp:96-123 | `+` returns a well-formed bigint whose value is the sum, for every combination of signs |
| BigInts.Sub | asg2/bigint.cpp:125-152 | `-` returns a well-formed bigint whose value is the difference, for every combination of signs |
| BigInts.Negate | asg2/bigint.cpp:154-160 | unary `-` keeps the digits and negates the value, and zero stays non-negative |
| BigInts.Mul | asg2/bigint.cpp:184-193 | `*` returns a well-formed bigint whose value is the product |
| BigInts.Equal | asg2/bigint.cpp:286-295 | `==` holds exactly when sign and digits agree, which on well-formed operands is equality of values |
| BigInts.LessAsWritten | asg2/bigint.cpp:297-333 | `operator<` as written holds exactly when left <= right, so it is true on equal operands |
| BigInts.Less | asg2/bigint.cpp:297-333 | the corrected `operator<` holds exactly when left < right |
| BigDivide.QuotRem | asg2/bigint.cpp:269-272 | C++-style quotient and remainder: x = q·y + r, \|r\| < \|y\|, r takes the sign of x, and \|q\| = \|x\| div \|y\| |
| BigDivide.HalfDigit | asg2/bigint.cpp:215-236 | the ten-way table of `div_by_2` computes 5·(hi mod 2) + lo div 2, a digit 0..9 |
| BigDivide.Halve | asg2/bigint.cpp:206-242 | `div_by_2` keeps the sign and leaves trimmed digits whose value is half the old value, rounded down |
| BigDivide.Double | asg2/bigint.cpp:199-202 | `mul_by_2` doubles the value |
| BigDivide.LongDivision | asg2/bigint.cpp:251-268 | the doubling and halving loops end with non-negative quotient and remainder equal to \|this\| div \|that\| and \|this\| mod \|that\| |
| BigDivide.DivideRound | asg2/bigint.cpp:261-267 | one round of the reduce loop keeps \|this\| = q·\|that\| + r with r below twice the divisor, and halves the power of two |
| BigDivide.DivideAsWritten | asg2/bigint.cpp:245-274 | `divide` as written throws exactly on a zero divisor and otherwise returns the quotient and remainder by \|that\|, with the dividend's sign on both |
| BigDivide.DivisorSignLost | asg2/bigint.cpp:269-270 | for a positive dividend and a negative divisor, the written results do not satisfy dividend = q·divisor + r |
| BigDivide.Divide | asg2/bigint.cpp:245-274 | the corrected `divide` throws exactly on a zero divisor and otherwise returns C++-style truncating quotient and remainder of the signed operands |
| BigDivide.Quotient | asg2/bigint.cpp:276-279 | `/` as written throws exactly on a zero divisor and otherwise returns the truncating quotient by \|divisor\|, so the divisor's sign is lost (7 / -2 is 3) |
| BigDivide.QuotientCorrected | asg2/bigint.cpp:276-279 | `/` on the corrected `divide` throws exactly on a zero divisor and otherwise returns the truncating quotient of the signed operands |
| BigDivide.Remainder | asg2/bigint.cpp:281-284 | `%` throws exactly on a zero divisor and otherwise returns the remainder with the dividend's sign |
| BigDivide.Pow | asg2/bigint.cpp:463-485 | square-and-multiply gives base^exponent; a zero base gives 0 (also for 0^0); a negative exponent raises 1 / base as the written `/` computes it, 1 div \|base\| (so pow(-1, -1) is 1) |
| Inodes.Walk | asg1/inode.cpp:238-247 | following names from a directory ends at an inode of the table, at a missing name, or at an attempt to descend through a file |
| Inodes.WalkAppend | asg1/inode.cpp:238-247 | walking a + b is walking a, then walking b from where a ended, unless a already failed |
| Inodes.UnlinkKeepsTree | asg1/inode.cpp:133-134 | erasing one name other than `.` and `..` from a directory keeps the tree well formed, and the name no longer resolves there |
| Inodes.LinkKeepsTree | asg1/inode.cpp:138-154 | adding a new file, or a directory whose `.` is itself and `..` its parent, under a directory keeps the tree well formed with the counter one higher |
| Inodes.LinkWalks | asg1/inode.cpp:138-154 | after linking a new inode under a fresh name, the name resolves to it, and a new directory's `.` and `..` lead to itself and its parent |
| Inodes.RewriteKeepsTree | asg1/inode.cpp:113-120 | replacing a file's words keeps the tree well formed and every existing path |
| Inodes.InodeState.constructor | asg1/inode.cpp:176-184 | a fresh state has root inode 1 whose `.` and `..` are itself, cwd = root, and the counter at 2 |
| Inodes.InodeState.Allocate | asg1/inode.cpp:12-15 | a new inode takes the current counter value, and the counter advances by one |
| Inodes.InodeState.MakeDir | asg1/inode.cpp:138-146 | `mkdir` adds a directory with `.` = itself and `..` = parent under the next inode number, and links the name in the parent; nothing else changes |
| Inodes.InodeState.MakeFile | asg1/inode.cpp:148-154 | `mkfile` adds an empty file under the next inode number and links the name in the parent; nothing else changes |
| Inodes.InodeState.ReadFile | asg1/inode.cpp:105-111 | `readfile` returns a file's words and fails exactly on a directory |
| Inodes.InodeState.WriteFile | asg1/inode.cpp:113-120 | `writefile` replaces a file's words with exactly the given ones, so reading gives them back, and fails on a directory without a change |
| Inodes.InodeState.Remove | asg1/inode.cpp:122-136 | `remove` fails on a missing name and on `.`, `..` and `/`; otherwise it erases exactly that entry, after which the name no longer resolves |
| Inodes.InodeState.Size | asg1/inode.cpp:78-98 | a file's size is its characters plus the spaces between words, which is -1 for an empty file; a directory's size is its entry count |
| Inodes.InodeState.GetParent | asg1/inode.cpp:161-169 | `get_parent` is absent exactly for a file; for a directory it is the `..` entry, which is older than the directory except at the root |
| Inodes.InodeState.InodeFromPath | asg1/inode.cpp:229-248 | the loop starts at the root for a leading `/` and at the cwd otherwise, and ends where the path's names lead |
| Inodes.InodeState.SetCwd | asg1/inode.cpp:270-273 | `set_cwd` moves the cwd to the given directory and changes nothing else |
| Inodes.InodeState.SetPrompt | asg1/inode.cpp:255-258 | `set_prompt` replaces the prompt and changes nothing else |
| Commands.Lookup | asg1/commands.cpp:24-33 | `commands::at` finds a command whose name is the word, or fails with "<word>: no such function" |
| Commands.LookupName | asg1/commands.cpp:9-22 | each of the twelve commands of the table is found under its own name |
| Commands.LastName | asg1/commands.cpp:261-262 | the last word of a path is non-empty and contains no `/` |
| Commands.PathStr | asg1/commands.cpp:264-266 | cutting the path at the last occurrence of its last word leaves a string whose words are all but the last; it is empty exactly for a single word with no leading `/` |
| Commands.ParentAsWritten | asg1/commands.cpp:268-277 | the parent the commands choose: the cwd for a one-word path; it equals the intended parent exactly when the path is relative, has several words, or the cwd is the root; it exists whenever the path resolves, and is a directory unless the path is invalid |
| Commands.ParentOf | asg1/commands.cpp:268-277 | the corrected parent is where all words but the last lead from the path's start, and the path resolves one step further from it |
| Commands.AbsoluteSingleName | asg1/commands.cpp:270-273 | with the cwd away from the root, the written parent of "/b" is the cwd while "/b" lives in the root |
| Commands.MissingParent | asg1/commands.cpp:316-330 | when a path is missing, its intended parent (`ParentOf`) is either missing too or a directory that lacks the last word |
| Commands.FoundParent | asg1/commands.cpp:382-393 | when a path resolves, its intended parent (`ParentOf`) is a directory whose entry under the last word is that inode |
| Commands.PwdRecursive | asg1/commands.cpp:35-43 | the names on the `..` chain form "" at the root and a string starting with `/` elsewhere |
| Commands.PwdWalk | asg1/commands.cpp:35-43 | walking the built path from the root leads back to the directory it was built for |
| Commands.WorkingDirectory | asg1/commands.cpp:347-354 | `pwd` prints a path starting with `/`, namely `/` at the root |
| Commands.PwdNamesCwd | asg1/commands.cpp:347-354 | the path `pwd` prints resolves to the cwd |
| Commands.ChangeDirectory | asg1/commands.cpp:65-82 | `cd` alone goes to the root; more than one argument, a missing path or a file fails and leaves the cwd; otherwise the cwd becomes the resolved directory |
| Commands.EchoWords | asg1/commands.cpp:84-95 | `echo` prints its arguments separated by single spaces and ends the line |
| Commands.EchoSplitsBack | asg1/commands.cpp:84-95 | splitting what `echo` printed gives back its arguments |
| Commands.Stoi | asg1/commands.cpp:109 | `stoi` either fails or reads an int in range from a non-empty prefix |
| Commands.ExitStatus | asg1/commands.cpp:97-120 | `exit` alone gives status 0, and a word `stoi` cannot read, or reads only in part (`idx != size`), gives 127; the status is always an int |
| Commands.ExitRoundTrip | asg1/commands.cpp:107-118 | `exit` with the decimal text of an int sets exactly that status |
| Commands.StoiOfDigits | asg1/commands.cpp:109 | `stoi` of an optional `-` followed by digits reads the whole word as their value |
| Commands.ExitNotNumber | asg1/commands.cpp:109-116 | `exit` with a word without digits sets status 127 |
| Commands.MakeFileCommand | asg1/commands.cpp:238-290 | `make` needs a path; it fails on a directory; it rewrites an existing file in place; for a missing path it faults on a missing written parent, else adds a file inode holding `words[2..]`, linked there unless the name is taken; where the written parent is the intended one, the path then reads back `words[2..]` |
| Commands.CreateFile | asg1/commands.cpp:260-289 | `mkfile` and `writefile` in the written parent add exactly one inode holding the data, linked unless the name is taken; with the intended parent the path resolves to it |
| Commands.LinkNewFile | asg1/commands.cpp:268-279 | `mkfile` in the written parent adds exactly one empty file inode, linked unless the name is taken; with the intended parent the path resolves to it |
| Commands.MakeDirectory | asg1/commands.cpp:292-334 | `mkdir` needs one argument and fails on an existing path or a missing written parent; otherwise exactly one directory inode is added, whose `..` is the written parent and which is linked there unless the name is taken; with the intended parent the path then resolves to it |
| Commands.CreateDirectory | asg1/commands.cpp:308-332 | `mkdir` in the written parent adds exactly one directory inode with `.` and `..`, linked unless the name is taken; with the intended parent the path resolves to it |
| Commands.SetPromptCommand | asg1/commands.cpp:336-345 | `prompt` sets the prompt to each argument followed by one space, and to "" without arguments |
| Commands.RemoveCommand | asg1/commands.cpp:356-431 | `rm` and `rmr` need one argument; they fail on a missing path, on `.`, `..` and `/`, `rm` on a non-empty directory, and `remove` when the written parent lacks the last word; otherwise exactly that entry of the written parent is erased, and with the intended parent the path no longer resolves |
| Commands.RemovePath | asg1/commands.cpp:382-393 | `remove` in the written parent fails when it lacks the last word and otherwise erases exactly that entry; with the intended parent it succeeds and the path no longer resolves |
| Words.Tokens | asg5/cix-client.cpp:246-256 | the words are non-empty, free of delimiters and, concatenated, are the input's non-delimiter characters in order |
| Words.Split | asg5/cix-client.cpp:246-256 | the `find_first_not_of`/`find_first_of` loop returns exactly the maximal runs of non-delimiters |
| Words.SplitJoin | asg5/cix-client.cpp:246-256 | splitting words joined by single spaces gives back the words |
| Words.FirstNotOf | asg5/cix-client.cpp:250 | `find_first_not_of` returns the first position from `from` that is not a delimiter, or the end |
| Words.FirstOf | asg5/cix-client.cpp:252 | `find_first_of` returns the first position from `from` that is a delimiter, or the end |
| Words.RFind | asg1/commands.cpp:264 | `rfind` returns the last position where the word occurs, or nothing when it does not occur |
| Words.PathSplit | asg1/commands.cpp:261-266 | the last word of a path occurs in it; what precedes its last occurrence has the other words and is empty exactly for a single word with no leading delimiter |
| KeyValue.LastNotOf | asg3/main.cpp:39 | `find_last_not_of` returns the last non-blank position, or -1 when all are blank |
| KeyValue.Trim | asg3/main.cpp:36-41 | the result is empty exactly for an all-blank string and otherwise neither starts nor ends with a space or tab |
| KeyValue.TrimPadded | asg3/main.cpp:36-41 | trimming a word padded with blanks on both sides gives the word |
| KeyValue.TrimIdempotent | asg3/main.cpp:36-41 | trimming twice is trimming once |
| KeyValue.Classify | asg3/main.cpp:51-107 | a lookup key has no `=` and no leading `#`; an assignment has non-empty key and value; a delete has a non-empty key; a value filter has a non-empty value |
| KeyValue.ClassifyAssign | asg3/main.cpp:101-106 | "key = value" with trimmed non-empty parts is an assignment of value to key |
| KeyValue.ClassifyQuery | asg3/main.cpp:54-65 | a trimmed key without `=` or leading `#` is a lookup of that key |
| KeyValue.ClassifyDelete | asg3/main.cpp:81-87 | "key =" is a deletion of key |
| KeyValue.WithValue | asg3/main.cpp:88-100 | the filter keeps exactly the pairs whose value is the given one |
| KeyValue.ApplyChanges | asg3/main.cpp:52-107 | only an assignment (which sets its key) and a deletion (which removes its key) change the map; every other line leaves it alone |
| KeyValue.TwoLines | asg3/main.cpp:45-108 | two lines act one after the other, the second on the map the first left, each echoed with its number |
| KeyValue.AssignThenQuery | asg3/main.cpp:53-106 | after "key = value", looking up key prints that pair, and the map maps key to value |
| KeyValue.DeleteThenQuery | asg3/main.cpp:53-87 | after "key =", looking up key reports "Key not found", and the map no longer has key |
| KeyValue.StrStrMap.constructor | asg3/main.cpp:114 | the map starts empty |
| KeyValue.StrStrMap.Insert | asg3/main.cpp:105 | `insert` maps the key to the value, replacing an earlier value |
| KeyValue.StrStrMap.EraseFound | asg3/main.cpp:85-86 | `erase` on what `find` returned removes the key, and reports when `find` returned the end |
| KeyValue.ScanLine | asg3/main.cpp:51-107 | one line updates the map and prints exactly as its classification says |
| KeyValue.ScanFile | asg3/main.cpp:43-109 | the loop echoes every line with its number and leaves the map that applying the lines in order gives |
| Wire.Htonl | asg5/cix-server.cpp:34 | `htonl` lays a 32-bit count out in four bytes |
| Wire.Ntohl | asg5/cix-server.cpp:44 | `ntohl` reads four bytes as a 32-bit count |
| Wire.HostOrder | asg5/cix-server.cpp:22 | a count stored without `htonl` lays out in four bytes |
| Wire.NtohlHtonl | asg5/cix-server.cpp:44 | `ntohl` undoes `htonl` on every 32-bit count |
| Wire.HtonlNtohl | asg5/cix-server.cpp:44 | `htonl` undoes `ntohl` on every four bytes |
| Wire.NtohlHostOrder | asg5/cix-server.cpp:22 | a count stored without `htonl` reads back byte-reversed, so errno 2 arrives as 0x2000000 |
| Wire.Signed | asg5/cix-server.cpp:44 | the `int32_t` the length field becomes lies in the 32-bit range and equals the count when non-negative |
| Wire.Zeroed | asg5/cix-client.cpp:44-46 | a zero-filled header carries the given command, length 0 and an all-NUL filename |
| Wire.CString | asg5/cix-server.cpp:45 | the filename as a C string is the longest NUL-free prefix of the buffer |
| Wire.FilenameField | asg5/cix-client.cpp:104 | `strncpy` into the 59-byte buffer copies the name up to its NUL and pads with NULs |
| Wire.CStringOfField | asg5/cix-client.cpp:104 | a NUL-free name shorter than the buffer comes back whole from the filename field |
| Wire.Request | asg5/cix-client.cpp:101-105 | a request header carries its command, the count in network order and, for a short NUL-free name, that name |
| Wire.Encode | asg5/cix-client.cpp:48 | a header is sent as 64 bytes: length field, command byte, filename buffer |
| Wire.Decode | asg5/cix-client.cpp:49 | 64 received bytes are read back as a header with that command and length field |
| Wire.DecodeEncode | asg5/cix-client.cpp:48-49 | decoding an encoded header gives the header back |
| Wire.EncodeDecode | asg5/cix-client.cpp:48-49 | encoding a decoded buffer gives the bytes back |
| Transport.Chunks | asg5/cix-client.cpp:117-124 | the chunks concatenate to the data, and each holds 1 to 1024 bytes |
| Transport.Received | asg5/cix-server.cpp:58-65 | the receiving loop gets the first n bytes, or only the whole 1024-byte chunks when the peer stops short |
| Transport.Socket.constructor | asg5/cix-server.cpp:154 | a fresh connection has its peer's bytes waiting and nothing sent |
| Transport.Socket.Send | asg5/cix-server.cpp:37 | `send_packet` appends one packet to what was sent |
| Transport.Socket.Recv | asg5/cix-server.cpp:158 | `recv_packet` takes exactly the bytes asked for, or fails and drains the connection |
| Transport.SendChunks | asg5/cix-server.cpp:124-132 | the sending loop sends exactly the chunks of the data |
| Transport.RecvChunks | asg5/cix-server.cpp:56-65 | the receiving loop succeeds exactly when n bytes are waiting and takes exactly them |
| HostFs.StatOf | asg5/cix-server.cpp:90-91 | `stat` succeeds exactly on a file or directory; a file reports its size; otherwise ENOENT |
| HostFs.OpenForRead | asg5/cix-server.cpp:114-116 | an `ifstream` opens exactly a readable file and yields its bytes |
| HostFs.OpenForWrite | asg5/cix-server.cpp:45-46 | an `ofstream` opens exactly a name that is not a directory or refused, and truncates the file |
| HostFs.Unlink | asg5/cix-server.cpp:74 | `unlink` succeeds exactly on a file the host lets go, removing only it |
| HostFs.WrittenValid | asg5/cix-server.cpp:58-65 | writing received bytes to an opened name keeps the directory well formed |
| HostFs.UnlinkValid | asg5/cix-server.cpp:74 | a successful unlink keeps the directory well formed |
| CixServer.Respond | asg5/cix-server.cpp:160-178 | answering one header consumes at most the bytes that follow it |
| CixServer.Step | asg5/cix-server.cpp:157-179 | a pass of the loop that continues has consumed at least one byte, so the loop ends |
| CixServer.Session | asg5/cix-server.cpp:153-185 | the serving loop ends only when the connection closes mid-packet or after the crash of a failed `popen` |
| CixServer.ReplyLs | asg5/cix-server.cpp:17-40 | `reply_ls` sends the LSOUT header and the listing, or after a failed `popen` a NAK and a crash |
| CixServer.ReplyPut | asg5/cix-server.cpp:42-70 | `reply_put` sends and consumes exactly what the PUT exchange says and returns the host afterwards |
| CixServer.ReplyRm | asg5/cix-server.cpp:72-86 | `reply_rm` sends exactly what the RM exchange says and returns the host afterwards |
| CixServer.ReplyGet | asg5/cix-server.cpp:88-134 | `reply_get` sends exactly what the GET exchange says and leaves the host unchanged |
| CixServer.Dispatch | asg5/cix-server.cpp:160-178 | the switch runs the handler of the request's command and sends nothing for any other command |
| CixServer.ServeOne | asg5/cix-server.cpp:157-179 | one pass reads a header and answers it exactly as one step of the session |
| CixServer.SessionStep | asg5/cix-server.cpp:156-180 | a session is its first step followed by the session on what that step left |
| CixServer.Serve | asg5/cix-server.cpp:153-185 | the serving loop sends, leaves and ends exactly as the session function says |
| CixServer.StepOnHeader | asg5/cix-server.cpp:157-160 | a step on an encoded header answers that header |
| CixServer.UnknownIgnored | asg5/cix-server.cpp:173-178 | a header with any other command is skipped without a reply, and the loop continues |
| CixServer.PutStores | asg5/cix-server.cpp:42-70 | a PUT to a writable name stores exactly the payload, consumes exactly it and replies ACK echoing the request |
| CixServer.PutRefused | asg5/cix-server.cpp:44-54 | a PUT to a name that cannot be opened gets NAK with a non-zero errno, echoes the name and consumes no payload |
| CixServer.GetSends | asg5/cix-server.cpp:110-133 | a GET of a readable file replies FILE with its size and the name, followed by exactly its bytes |
| CixServer.GetMissing | asg5/cix-server.cpp:90-100 | a GET of a missing name gets NAK carrying ENOENT |
| CixServer.GetDirectory | asg5/cix-server.cpp:101-108 | a GET of a directory gets NAK with the request's length field (zero) unchanged |
| CixServer.RmRemoves | asg5/cix-server.cpp:72-86 | RM replies ACK exactly when the file existed and the host let it go, removing only it; otherwise NAK with a non-zero errno and no change |
| CixServer.LsLists | asg5/cix-server.cpp:17-40 | LS replies LSOUT with an empty filename and the listing's length, followed by exactly the listing; a failed `popen` ends in a crash after a NAK |
| CixClient.Lookup | asg5/cix-client.cpp:22-29 | `command_map` finds a code exactly for the six command names, and the code names the word |
| CixClient.LookupName | asg5/cix-client.cpp:22-29 | each of the six commands is found under its own name |
| CixClient.Validate | asg5/cix-client.cpp:64-86 | put, get and rm accept exactly one filename of at most 58 characters without `/` |
| CixClient.LsTurn | asg5/cix-client.cpp:43-62 | `cix_ls` sends one zeroed LS header and leaves the local host alone |
| CixClient.LsRefused | asg5/cix-client.cpp:51-53 | after any reply other than LSOUT, `cix_ls` reads no payload and reports the unexpected header |
| CixClient.PutTurn | asg5/cix-client.cpp:64-131 | `cix_put` sends anything only for a valid name that is a local regular file |
| CixClient.RmTurn | asg5/cix-client.cpp:133-171 | `cix_rm` sends anything only for a valid name |
| CixClient.GetTurn | asg5/cix-client.cpp:173-230 | `cix_get` sends anything only for a valid name, and changes local files only after a FILE reply |
| CixClient.GetReceives | asg5/cix-client.cpp:203-229 | after a FILE reply, the client writes exactly the announced bytes under the reply's filename and reads nothing more |
| CixClient.GetRefused | asg5/cix-client.cpp:206-209 | after any other reply, the client reads no payload and changes nothing |
| CixClient.RmAnswered | asg5/cix-client.cpp:163-170 | `cix_rm` sends the RM request and reports the reply: ACK, or the unexpected header |
| CixClient.Obey | asg5/cix-client.cpp:274-309 | a blank line does nothing, `exit` quits, and a first word outside the table is reported invalid |
| CixClient.ConverseEnding | asg5/cix-client.cpp:269-315 | the loop runs one turn per line until `exit` or a broken connection ends it on that turn, and otherwise to the end of input |
| CixClient.AwaitAck | asg5/cix-client.cpp:126-130 | the client reads one reply header and reports ACK or the unexpected header, or a broken connection |
| CixClient.CixLs | asg5/cix-client.cpp:43-62 | `cix_ls` sends and reads exactly what the LS turn says |
| CixClient.CixPut | asg5/cix-client.cpp:64-131 | `cix_put` sends and reads exactly what the PUT turn says |
| CixClient.CixRm | asg5/cix-client.cpp:133-171 | `cix_rm` sends and reads exactly what the RM turn says |
| CixClient.CixGet | asg5/cix-client.cpp:173-230 | `cix_get` sends, reads and writes exactly what the GET turn says |
| CixClient.Execute | asg5/cix-client.cpp:279-309 | one pass of the loop splits the line, dispatches on the first word and does exactly what the line's turn says |
| CixClient.ConverseStep | asg5/cix-client.cpp:273-310 | the conversation is the first line's turn followed by the conversation on the rest, unless that turn quit or broke |
| CixClient.Client | asg5/cix-client.cpp:269-315 | the client loop sends, reads, writes and ends exactly as the conversation function says |
| CixProtocol.CommandText | asg5/cix-client.cpp:279 | "put name", "get name" and "rm name" pass the client's checks for a name both sides accept |
| CixProtocol.PutBytes | asg5/cix-client.cpp:101-124 | `put` of a local file sends its PUT header followed by exactly the file's bytes |
| CixProtocol.PutRoundTrip | asg5/cix-client.cpp:64-131 | a put stores the local file's bytes under its name on a server that can write it, and the client sees ACK |
| CixProtocol.GetRoundTrip | asg5/cix-client.cpp:173-230 | a get of a readable server file writes its bytes under its name locally |
| CixProtocol.GetServed | asg5/cix-server.cpp:110-133 | the server answers a GET of a readable file with a FILE header naming the file, then its bytes |
| CixProtocol.GetMissingRoundTrip | asg5/cix-client.cpp:206-209 | a get of a name the server lacks ends with NAK carrying ENOENT and no local change |
| CixProtocol.RmRoundTrip | asg5/cix-client.cpp:133-171 | an rm is acknowledged exactly when the server held the file and could unlink it, and then exactly that file is gone |
| CixProtocol.RmServed | asg5/cix-server.cpp:72-86 | the server's answer to RM is ACK exactly when the unlink succeeds, and then removes only that file |
| CixProtocol.LsRoundTrip | asg5/cix-client.cpp:43-62 | an ls shows the server's listing, up to its first NUL |

## Left out

- The `setw` columns of `fn_ls`, `ls_recursive` and `fn_lsr`, and the file contents `fn_cat` prints, are output formatting. `Commands.Command` names these commands, but they are not modelled.
- `recursive_delete`, the destructors and the copy constructor of asg1 release memory. Removed inodes stay in the node table.
- Commands.RemoveCommand: when the cwd lies in the removed subtree (cwd = /x and `rm ../x`, or `rmr /a` with cwd = /a/b), the source frees the cwd's inode through `recursive_delete` and keeps a dangling cwd, so later commands are undefined behaviour; the model keeps the detached directory, with its `..`, as the cwd, and `pwd` or `mkdir` go on using it.
- `to_long` and its range error are left out. `BigDivide.Pow` takes the exponent's value directly, and a `long` exponent is not bounded.
- BigInts.Print: does not model the backslash-newline written to `cout` after every 69 characters (bigint.cpp:449-453). That text is written to `cout` rather than to `out`.
- asg4 (graphics, shapes, interpreter) is GLUT drawing and floating-point arithmetic.
- The option parsing and `main` of asg3, and the argument parsing, signal handlers, logging and `exit_status` of every program, are process plumbing.
- The `listmap` iteration order is not modelled: a listing is reported as the map it prints.
- KeyValue.StrStrMap.EraseFound: erasing through the end iterator (`key =` for an absent key) has no defined effect in the source. The model reports it as an `EraseAtEnd` event and leaves the map unchanged.
- A last input line without a newline is dropped by `getline`/`eof` in asg3 and in the client. The models take the complete lines as their input.
- Sockets, `popen`, `stat`, `unlink` and the file streams are external. The connection is a `Transport.Socket`, the `ls -l` output is a `CixServer.Lister` parameter, and each directory is a `HostFs.Disk`.
- Short reads and writes are not modelled. `send_packet` and `recv_packet` are taken to transfer whole packets.
- CixServer.ReplyLs: after a failed `popen`, the source calls `fgets` on a null pipe. The model ends the session there (`Crashed`).
- The server's `CString` of a filename field without a NUL, and the client's `ofstream` opened on `header.cix_filename` in `cix_get` (cix-client.cpp:212), would read past the buffer in C. The model stops at the buffer's end on both sides.
- HostFs.Valid: file sizes are kept below 2^31 bytes, so that `st_size` and the `int32_t` counts agree.
- CixClient.PutTurn: when the local file passes `stat` but cannot be opened, the header is already sent and no payload follows. The model records that turn, but the server side of such a desynchronised stream is not traced further.
- CixClient.GetTurn: the store `header.cix_nbytes = htonl(errno)` after a failed local open is dead, so it is omitted. The payload is still drained, as the source does.
- CixClient.Obey: command lines must be byte text (`Wire.ByteText`). The help text `cix_help` prints is the `Helped` event.
- The put/get limit `size > 58` and the rm limit `size >= CIX_FILENAME_SIZE` (59) accept the same names. `CixClient.Validate` states them once.

## Findings

| source | as written | input that shows it | evidently intended | confidence | as-written member | corrected member |
|---|---|---|---|---|---|---|
| asg2/bigint.cpp:332 | `operator<` falls through to `return true` when the operands are equal | `bigint(5) < bigint(5)` is true | `<` is false on equal operands | not executed | BigInts.LessAsWritten | BigInts.Less |
| asg2/bigint.cpp:48-53 | `bigint(long)` on a negative argument pushes `that % 10`, which is negative in C++ | `bigint(-12)` holds digits [-2, -1] with the sign set | digits 0..9 of the magnitude, with the sign set | not executed | BigInts.FromLongAsWritten | BigInts.FromLong |
| asg2/bigint.cpp:269-270 | `divide` compares against `divisor.negative`, which line 252 has already cleared, so both results take the dividend's sign | `7 / -2` gives 3 and `7 % -2` gives 1, so 3·(-2) + 1 = -5 ≠ 7 | quotient sign from both operands (C++ truncation: -3 and 1) | not executed | BigDivide.DivideAsWritten, BigDivide.DivisorSignLost, BigDivide.Quotient | BigDivide.Divide, BigDivide.QuotientCorrected |
| asg1/commands.cpp:270-277 | `make`, `mkdir`, `rm` and `rmr` choose the cwd as parent whenever the path splits into one word, even when that word follows `/` | with cwd = /a, `mkdir /b` creates /a/b, not /b | the cwd only for a path without `/`; otherwise the directory before the last word | not executed | Commands.ParentAsWritten, Commands.AbsoluteSingleName, Commands.MakeDirectory | Commands.ParentOf |
