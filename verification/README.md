# A verified model of ScriptBasic's tables, lists and linked structures

ScriptBasic compiles BASIC programs to index-linked arrays and runs them on a store of
intrusively linked objects. This project models the parts whose correctness is hardest to see from the code, each
in the form the code has (classes whose methods update fields, loops over arrays, pure computations), and proves what
they promise. `dafny verify dfyconfig.toml` checks everything.

| files | models | main results |
|---|---|---|
| `Memory.dfy`, `Aliases.dfy` | `memory.c`: variables, reference chains, free lists, mortal lists | The pointer heap refines classes of variables that share a value. `SetRef` joins two classes, `ReplaceVariable` changes what exactly one class reads, `ReleaseVariable` takes one variable out and promotes the value; every chain is well formed and every object is in exactly one place after any run of the operations, since each of them keeps `Valid()` |
| `Variables.dfy` | runs of assignments of any scalars, copies, undefinings and references on the store of `memory.c` | Every run refines a table of classes and values: what each variable reads, and which variables are aliases |
| `Lisp.dfy`, `LispReader.dfy`, `Config.dfy`, `Layout.dfy`, `Cells.dfy`, `ConfigTree.dfy`, `ConfigLoad.dfy` | `lsp.c`, `confpile.c`, `conftree.c`: the configuration compiler | Any text, with its blanks and comments, compiles to the tree that its items say; keys without values are taken out of the cells in place; counting and building fit exactly; printing and loading again gives identical arrays; path lookup decides first-match paths |
| `Expression.dfy`, `Nodes.dfy`, `Parser.dfy` | `expression.c`: the precedence parser | Parsing a print gives the tree back, with fresh distinct node numbers, and no fewer lexemes do; declared constants stand for their values |
| `Builder.dfy`, `Strings.dfy`, `SymbolTables.dfy`, `Translate.dfy` | `builder.c`: code array, string table, symbol tables | The array decodes to the program and to nothing else; string offsets are stable, shared exactly by equal strings, and fit; symbol lookup finds what was stored; from the lexemes of an expression to its code in the array |
| `Match.dfy` | `match.c`: the pattern matcher | Decides a declarative fitting relation and returns the smallest captures; for all sizes, exactly when an error is turned into a match |
| `Logger.dfy` | `logger.c`: the asynchronous logger, as interleaved steps | What was logged is accepted, conservation, no lost wake-up, no deadlock in every reachable state; exactly when a shutdown writes everything |
| `Md5.dfy` | `md5.c`: streaming | Any cutting of a message gives the digest of the whole |
| `Segments.dfy` | `myalloc.c`: segments | Doubly linked lists, exact sizes, merge as union, net statistic |
| `Calendar.dfy` | `mygmtime.c` | Agreement with a day-by-day calendar, round trip, normal form |
| `NamePath.dfy` | `ex_CleanNamePath` | The in-place restart loop is a single stack pass |

## What the code does that its documentation does not say

- Logger: messages accepted before a shutdown are not always written (`Logger.ShutdownCanLoseMessages`). They are
  written in every continuation if and only if, when the state becomes SHUTTING, the writer does not stand between
  its inner loop and its look at the state with something in the queue (`Logger.WhatShutdownWrites`).
- Matcher: a buffer of the documented size `cbString` is not safe (`Match.SafeBufferSize`,
  `Match.DocumentedSizeCanClaim`). An error behind a multi-joker is turned into a match: whatever the sizes, exactly when
  the smallest lengths that lead anywhere lead to one (`Match.OutcomeIsFirstWay`); with a buffer that is large enough,
  exactly when a multi-joker comes before a dangling escape, or before a multi-joker without an array entry, that the
  string can reach (`Match.FaultsAreClaimed`). So a short array is never reported unless it has no entry at all
  (`Match.ShortArrayIsReported`). Captures stand end to end in the
  buffer, without zero characters between them (`Match.Match`). `JokerMatch` does not mask the bit it shifts down, so a
  set accepts every character whose bit or any higher bit of the same byte is set (`Match.JokerMatchIsAnyHigherBit`),
  and its members alone only if the bits of each byte are closed downwards (`Match.JokerMatchIsMember`).
- Configuration: a branch none of whose keys has a value stays behind and makes the text a syntax error
  (`Config.RemoveNilLeaves`, `Config.LackingIsRejected`, `Config.EmptiedBranch`). Numerals such as `1E-5` and `1e5` are
  collected but are no numbers: the minus sign of an exponent is recognised but not stepped over, and a small e is not
  recognised. Exactly the numerals with neither are taken (`Config.NumericAccepts`, `Config.NumericOfNumeral`).
- References: REF on a variable that other variables refer to leaves the back link of the first of them on the object
  that was released (`Memory.Memory.PrepareRef`, `Variables.Program.ReferThenPrepare`); without such variables the
  links are right.
- Allocator: `alloc_Merge` leaves the size of the second segment stale until it is freed
  (`Segments.Allocator.Merge`), and does not raise the first segment's maximum.

## Assumptions

- Memory never runs out, and a mutex section is one step.
- `memory.c`: a variable passed to `SetRef` holds a reference that refers to nothing yet, and lies outside the class of
  the value; `ReplaceVariable` gets a variable that is no reference; an object passed to `Immortalize` is immortal or
  on the list given. The new value is put in the variable just before the old one is released, instead of just after;
  the release does not look at the variable. In runs of commands `maxderef` is at least the number of variables, and a
  reference is made to a variable after what it held has been released.
- `md5.c`: a compression function on chains of four 32-bit words is a parameter; each piece is shorter than 2^32 - 63
  bytes.
- `match.c`: positions in the capture array and buffer are indices; the pattern is followed by a zero character and the
  string contains none; joker sets are as the code tests them.
- `lsp.c`, `confpile.c`: integers are unbounded, a real is represented by its characters; a list that was
  read shares no cells.
- `expression.c`: the lexemes, the operator tables and the resolution of variable names are given; a symbol made of
  letters is not an operator, and for the shortest print no code is both a function and a binary operator. A string
  constant needs its characters, a zero and a `long` of 8 bytes. Operators, functions and array accesses store the number of their argument list in the same way.
- `mygmtime.c`: a `long` has 64 bits, so that the overflow tests of `mygmktime` cannot fire for 32-bit fields.
- `builder.c`: codes of operators, functions and commands are above those of the other nodes, and a command's parameters
  are those its syntax generates. The order of symbols is the order of the traversal.

## Model

| member | source | states |
|---|---|---|
| Memory.Memory.SetRef | memory.c:484-535 | For any variable and any value variable outside its class: reports a circular reference exactly when a loop runs out of `maxderef`. Without an error the class of the variable is appended to the class of the value, in chain order, the whole heap is well linked again, every variable of the joined class reads the value and all others read what they read. After an error of the first two loops nothing has changed; after one of the last the classes are chained, but only the first references lead to the value |
| Memory.Memory.Dereference | memory.c:495-502 | One step leads from any reference to the variable that holds the value of its class; with `maxderef` 0 nothing is followed |
| Memory.Memory.StoreUndef | memory.c:506-512 | A null value becomes a stored undefined one in a class of its own |
| Memory.Memory.FindLast | memory.c:514-520 | The walk along the back links ends at the last variable of the class after exactly as many steps as it has references, or reports a circular reference |
| Memory.Memory.HangOn | memory.c:521-532 | Links, back links and targets after the splice, object by object, with or without the error of the last loop |
| Memory.Memory.Splice | memory.c:513-534 | Splicing two classes gives a well-linked heap whose classes are the joined ones; an error of the walk changes nothing, and one of the last loop leaves the links spliced and the targets half altered |
| Memory.Memory.PassByReference | commands/function.c:225-226 | A fresh reference to a variable joins its class, and nobody else notices |
| Memory.Memory.PrepareRef | commands/let.c:175-184 | The preparation of the REF command leaves the links right if and only if the variable had no references: otherwise the first reference leads back to the object that was just released |
| Memory.Memory.ReplaceVariable | memory.c:626-686 | Afterwards every variable of the class of the assigned variable reads the new value (undefined for none) and every other variable reads what it read; classes change only by a variable getting or losing its only value |
| Memory.Memory.Overwrite | memory.c:643-650 | Storing a number over a number of the same type changes what exactly one class reads |
| Memory.Memory.Prepare | memory.c:655-664 | The stored value is an object of its own with the same contents, immortal and linked to nothing |
| Memory.Memory.TakeOver | memory.c:670-678 | The new object takes over the chain of the old one: the class reads the new value, the old object is left linked to nothing |
| Memory.Memory.Store | memory.c:666-684 | Classes and readings after the new value has replaced and released the old one |
| Memory.Memory.ReleaseVariable | memory.c:322-417 | Releasing the object of a variable, which is no array, takes just that variable out of its class; every remaining variable reads what it read, and of a head with references the value moves to the first of them; other objects in no variable are not touched |
| Memory.Memory.Unhook | memory.c:349-389 | Which object is given back: the released one, or the first reference to it, whose variable keeps the value |
| Memory.Memory.Promote | memory.c:352-377 | The swap and the loop behind it give the class without its first variable, all reading the same value |
| Memory.Memory.Part | memory.c:378-388 | Unlinking a reference from the middle or the end of a chain gives the class without it |
| Memory.Memory.Discard | memory.c:396-416 | The object goes to the free list of its own type, or back to the system if it is a large block |
| Memory.Memory.NewVariable | memory.c:235-314 | Takes a free object of the same kind exactly if there is one, else makes a new one; never hands out an object that is held; its block has the size of its type; everything that was not free is unchanged |
| Memory.Memory.NewString | memory.c:428-455 | A block at least as large as requested, of the smallest string type that is large enough |
| Memory.Memory.Mortalize | memory.c:913-930 | The object becomes the first of the list, which stays well linked |
| Memory.Memory.Immortalize | memory.c:940-960 | The object leaves its mortal list wherever it stands in it, and the rest keeps its order |
| Memory.Memory.NewMortal | memory.c:974-989 | A new object at the front of the mortal list |
| Memory.Memory.NewMortalString | memory.c:1248-1262 | A mortal string object with room for the requested characters |
| Memory.Memory.DupVar | memory.c:1049-1102 | A mortal copy with the same contents; the original and everything else keep theirs |
| Memory.Memory.DupMortalize | memory.c:1111-1122 | A mortal value is used as it is, any other is copied |
| Memory.Memory.ReleaseMortals | memory.c:1136-1149 | Each object of the list is released once, the list is empty, variables read what they read and objects outside the list stay |
| Memory.Memory.constructor | memory.c:122-143 | The invariant holds at the start |
| Memory.Memory.ReadsThroughReference | memory.c:495-502 | Following a reference as the code does reads the value of the class, at depth one |
| Memory.Memory.ChainVisitsClass | memory.c:514-520 | The chain of back links visits each variable of the class once, in order, and ends |
| Memory.Memory.ChainIsWellFormed | memory.c:372-388 | Each reference targets the head and leads back to the object before it; no slot or object occurs twice |
| Memory.Memory.ClassReadsTheSame | memory.c:484-535 | All variables of a class read the same |
| Memory.Memory.Conservation | memory.c:391-416 | Every object is in one place: once on the free list of its own type, once on one mortal list, or held |
| Memory.Memory.Joined | memory.c:513-532 | Heap side of a join: all links fit the joined classes |
| Memory.Memory.Promoted | memory.c:352-377 | Heap side of a promotion: all links fit the class without its first variable |
| Memory.Memory.Parted | memory.c:378-388 | Heap side of unlinking: all links fit the class without the variable |
| Variables.Program.RunProgram | memory.c:322-686 | For every run of commands that assign constants (undefined, long, double, strings of the program text and strings in blocks of their own), copy variables, undefine them and make references, on any number of variables: each variable of the heap reads what a plain table slot to class to value says, and two variables are aliases exactly when the table gives them one class |
| Variables.Program.LetVariable | memory.c:626-686 | Assigning any scalar, or nothing, through the dereferenced variable is one step of the table: the class gets the value, whether an object is overwritten, replaced, made or dropped, and the mortal objects are gone again |
| Variables.Program.CopyVariable | commands/let.c:46-90 | Assigning one variable to another copies the value, also within one class and for strings, whose object is duplicated: later changes of either class do not show in the other |
| Variables.Program.Assign | memory.c:626-686 | Which variables read the new value, and how classes change, in terms of any variable of the class |
| Variables.Program.UndefVariable | memory.c:349-389 | Releasing a variable is one step of the table: it leaves its class and the class keeps its value |
| Variables.Program.ReferVariable | memory.c:484-535 | Releasing a variable and referring to another is one step of the table: it moves to the class of the other |
| Variables.UndefMatches | memory.c:349-389 | If classes and readings match a table, dropping a slot matches the table in which the variable has a class of its own |
| Variables.LetMatches | memory.c:626-686 | Any assignment that changes the reading of exactly one class matches the new value of that class in the table, also if a lone variable gets or loses its object |
| Variables.ReferMatches | memory.c:484-535 | Joining a variable without an object to the class of another matches giving it the class of the other |
| Variables.TogetherAfterDrop | memory.c:378-388 | Two remaining slots are aliases after one has left if and only if they were before |
| Variables.TogetherAfterJoin | memory.c:521-532 | Two slots are aliases after a join if and only if they were before or one was in each of the joined classes |
| Variables.AssignedTogether | memory.c:626-686 | Assigning makes no aliases and parts none |
| Variables.AliasTogether | memory.c:484-535 | Who is whose alias after a variable has become a reference, for every pair |
| Variables.Program.ReferThenPrepare | commands/let.c:175-184 | A state that two commands reach, and in which the preparation of REF spoils the links |
| Variables.ClassSize | memory.c:514-520 | A class has no more slots than there are variables, so a `maxderef` of that size is enough |
| Aliases.JoinKeepsPartition | memory.c:513-532 | Joining two classes keeps the classes disjoint sequences |
| Aliases.JoinNeighbours | memory.c:513-532 | Neighbours and first slots after a join, for every slot |
| Aliases.DropKeepsPartition | memory.c:349-389 | A slot leaving its class keeps the classes disjoint sequences |
| Aliases.DropNeighbours | memory.c:349-389 | Neighbours and first slots after a slot has left, for every slot |
| LispReader.Reader.GetChar | lsp.c:276-286 | The next character is a put-back one or the next of the file |
| LispReader.Reader.UngetChar | lsp.c:288-293 | A put-back character is the next one again |
| LispReader.Reader.GetC | lsp.c:305-313 | A comment reads as the newline that ends it, or as the end of the file |
| LispReader.Reader.SpaceAt | lsp.c:192 | Stops at the first character that is neither blank nor in a comment |
| LispReader.Reader.StoreCh | lsp.c:765-780 | The buffer grows when needed and keeps what it holds, zero-terminated |
| LispReader.Reader.StrDup | lsp.c:198-206 | Copies up to the first zero character |
| LispReader.Reader.ReadToken | lsp.c:808-817 | The token is the longest run of its characters, whatever length |
| LispReader.Reader.ReadOneLine | lsp.c:869-893 | Value and rest of a one-line string, for any escapes, line breaks and ends of file |
| LispReader.Reader.ReadManyLines | lsp.c:836-864 | Value and rest of a triple-quoted string |
| LispReader.Reader.TripleQuote | lsp.c:840-846 | Looks two characters ahead and puts them back unless they end the string |
| LispReader.Reader.ReadExpression | lsp.c:785-937 | The reader over unget buffer and character buffer returns what the text denotes and leaves the rest |
| LispReader.Reader.ReadLst | lsp.c:943-963 | The list that the text denotes, and the rest of the text |
| Cells.RemoveNil | confpile.c:137-163 | On cons cells linked in any way without sharing, rewiring the `cdr` before each pair without a value leaves, in the same cells, the list that the specification of the removal gives, inner lists included |
| Cells.PrunedShows | confpile.c:137-163 | The cells that stay show the value that the removal specifies |
| Cells.FirstPairDone | confpile.c:137-163 | After the inner list was handled the links of a pair that stays are final, and those of the rest are untouched |
| Cells.FromValue | lsp.c:943-963 | Cells of a list, one for each pair and none twice |
| Cells.ToValue | lsp.c:1203-1230 | Reading the cells gives the value |
| Config.RemoveNilLeaves | confpile.c:137-163 | What is left has a key without a value if and only if some list, at some depth, is the value of a key and gives no key of its own a value |
| Config.NothingIsLeft | confpile.c:137-163 | A list is emptied exactly when none of its keys has a value |
| Config.EmptiedBranch | confpile.c:137-163 | A concrete text: a branch that loses all its keys stays and is then a syntax error |
| Config.LackingIsRejected | confpile.c:174-217 | A key without a value is a syntax error |
| Config.AcceptedIsPrintable | confpile.c:174-217 | Every accepted tree without reals can be printed |
| Config.PrintThenCompile | confpile.c:299-353 | Printing a tree and compiling what was printed gives the tree |
| Config.RoundTrip | confpile.c:299-353 | For every text that compiles to a tree without reals, printing and compiling gives the same tree, for all string contents and nestings |
| Config.QuotedOneLine | confpile.c:321-340 | A printed one-line string is read back, quotes and backslashes included |
| Config.QuotedManyLines | confpile.c:321-340 | A printed string with line breaks is read back |
| Config.NumericOfInt | lsp.c:234-273 | A printed integer is read back |
| Config.NumericOfNumeral | lsp.c:234-273 | A sign, digits, fraction and exponent with either letter are no number exactly when the exponent has a small e or a minus sign, and an integer exactly without fraction and exponent |
| Config.NumericAccepts | lsp.c:234-273 | For all strings: the reader takes exactly the numerals whose exponent, if any, has a capital E and no minus sign |
| Config.SmallLetterIsNoNumber | lsp.c:252-256 | 1e5 is no number |
| Config.SmallIsNoNumber | lsp.c:256-260 | 1E-5 is no number |
| Config.ReadIsWellRead | lsp.c:943-963 | What the reader can return: symbols are tokens, strings end at a zero character |
| Layout.CompileLayout | confpile.c:230-270 | However a text is laid out, with blanks and comments between words, numbers, strings of both kinds, lists and odd characters, it compiles to the tree that its items say, read off without the reader: keys without values are left out, and exactly the stated mistakes are errors |
| Layout.LayoutIsRead | lsp.c:943-963 | Any such list, nested to any depth, is read as what its items say |
| Layout.ItemIsRead | lsp.c:785-937 | Each item is read as what it says: words, the values of all numerals, strings with their escapes, lists; and reading goes on behind it |
| Layout.CommentIsSkipped | lsp.c:305-313 | A comment takes the rest of its line and nothing else, for all texts |
| Layout.CommentBehindWord | lsp.c:815-823 | A comment directly behind a word ends it and leaves the next line |
| Layout.CommentedPrint | confpile.c:299-353 | A tree that was printed, with any comments and blanks put at the ends of its lines, compiles to itself; without them the layout is the printed text |
| Layout.NumberSaid | lsp.c:234-273 | Every numeral that is read has the value of its digits by their weights, with its sign |
| Layout.TreeOfSaying | confpile.c:137-217 | The removal and the checks applied to what the items say give the tree of the items |
| Layout.BrokenStrings | lsp.c:880-904 | A string that is not closed ends with the text; one with a line feed is nothing |
| Layout.UnclosedList | lsp.c:943-963 | A list that is not closed ends with the text |
| ConfigTree.Tree.CountSubTree | confpile.c:174-217 | Succeeds exactly on well-formed lists, and counts the nodes and characters of their trees |
| ConfigTree.Tree.BuildSubTree | confpile.c:47-116 | With arrays of the counted sizes every write is in bounds, both indices end exactly behind them, and the arrays hold the tree in preorder with each level chained in order |
| ConfigTree.Tree.LinkTo | confpile.c:65-70 | Chaining a new node changes the last node of the level only |
| ConfigTree.Tree.StrCpy | confpile.c:72-75 | The string is in the table, and what was before it is kept |
| ConfigTree.StoresIsUnique | confpile.c:47-116 | A tree determines its node array and string table |
| ConfigTree.StoresSnoc | confpile.c:61-71 | Appending a key to a level extends the stored level |
| ConfigTree.Tree.StrMyEq | conftree.c:409-420 | True exactly when the parts in front of the separator are equal |
| ConfigTree.Tree.FindNode | conftree.c:437-476 | On stored arrays the search with its restarts terminates and returns what the search in the tree returns |
| ConfigTree.FindFollows | conftree.c:454-476 | Where the separated parts lead, taking the first match on each level, is the node that is found |
| ConfigTree.FoundLeads | conftree.c:454-476 | A node that is found is where the parts lead |
| ConfigTree.FindDecides | conftree.c:454-476 | Nothing is found exactly when no first-match path exists |
| ConfigTree.FoundIsEntry | conftree.c:409-476 | The node that is found holds the entry at the end of the path: its key and its value, or all that is below it |
| ConfigTree.SplitJoined | conftree.c:409-476 | The parts of a key are those that were written with separators between them |
| ConfigTree.Tree.DumpTree | confpile.c:299-353 | Prints, from the arrays, the text of the tree they hold |
| ConfigTree.Tree.ShowString | confpile.c:321-340 | The quoting and escaping of one string |
| ConfigLoad.ReadTextConfig | confpile.c:230-270 | Success, syntax error or empty as the text denotes; on success both arrays have the counted sizes and hold the tree |
| ConfigLoad.WithoutNil | confpile.c:249-252 | Removing on the cells of a list what the specification removes from the list |
| ConfigLoad.DumpAndReload | confpile.c:230-270 | Load, dump and load again: identical node array and string table, for every text without reals |
| ConfigLoad.ArraysAreDetermined | confpile.c:47-116 | Two pairs of arrays of the same tree are equal |
| Expression.ParsePrinted | expression.c:2127-2159 | For any tree over operators with precedences 1 to MAXPREC-1, parsing its lexemes with as few parentheses as possible gives that tree, no error, and the lexemes behind it |
| Expression.ParseFirstOperand | expression.c:2139-2157 | Behind a printed operand the loop of its level goes on: equal precedences group to the left |
| Expression.ParsePrintedTag | expression.c:1798-1881 | A printed operand parses to itself, whatever follows that cannot continue it |
| Expression.ParsePrintedArgs | expression.c:1468-1486 | A printed argument list parses to itself up to the closing parenthesis |
| Expression.ParseArray | expression.c:2023-2082 | Any number of index lists behind a variable |
| Expression.PrintIsInjective | expression.c:2127-2159 | Different trees have different lexemes: the grammar is unambiguous on them |
| Expression.PrintIsShortest | expression.c:2127-2159 | No other lexemes that parse to a tree without an error are fewer than the printed ones, so every printed parenthesis is needed |
| Expression.LevelIsEnough | expression.c:2127-2159 | Whatever a level parses without an error has at least the lexemes of the print of its tree |
| Expression.ParseSpelled | expression.c:1898-1987 | Writing declared names for any constants of a printed expression changes neither the tree nor the errors nor what is left |
| Expression.SpellsLevel | expression.c:2127-2159 | The same for any lexemes, whether they are an expression or not |
| Expression.ParseAnyCall | expression.c:1821-1851 | Too few and too many arguments of a function are one error each, for any arguments |
| Expression.ParseBareCall | expression.c:1845-1851 | A function without parentheses is an error exactly if it needs arguments |
| Expression.ParseUnclosed | expression.c:1872-1880 | A parenthesis that is not closed is one error, and the expression is kept |
| Expression.ParseHalf | expression.c:2143-2148 | A second operand that is missing loses the first, without an error |
| Expression.Grouping | expression.c:1856-1869 | Left grouping, and a unary operator binding tighter than binary ones, spelled out |
| Parser.Parser.ParseExpression | expression.c:2127-2159 | The parser over the lexeme pointer returns the tree, the rest and the error count of the functions above, with new and different node numbers |
| Parser.Parser.ParseATag | expression.c:1798-2110 | The same for tags, in the order of the alternatives |
| Parser.Parser.ParseBuiltIn | expression.c:1820-1853 | Built-in functions with and without arguments, counted against their limits |
| Parser.Parser.ParseExpressionList | expression.c:1468-1486 | The same for lists; a missing expression behind a comma loses the list |
| Parser.Parser.ParseConstant | expression.c:1942-1987 | A constant, with the bytes it needs in the string table counted |
| Parser.Parser.ParseSymbol | expression.c:1989-2083 | User functions, array accesses and variables |
| Parser.Parser.ParseMoreIndices | expression.c:2060-2081 | The loop over further indices |
| Parser.Parser.NewId | expression.c:1049-1050 | Node numbers count up |
| Parser.Parser.ParseWhole | expression.c:2167-2173 | A printed expression, in which declared names may stand for constants, is parsed without error into nodes with different numbers in the range of the counter, and exactly the bytes of the string constants stepped over are counted |
| Builder.BuildObject.BuildNode | builder.c:344-516 | The array holds the tree in the places of its numbers, no other place is written, strings are only added, and each call of a function that is not defined is one error |
| Builder.BuildObject.BuildList | builder.c:314-332 | The same for lists, with their errors |
| Builder.BuildObject.BuildCommand | builder.c:424-508 | The same for commands and their chained parameters, with their errors |
| Builder.BuildObject.Build | builder.c:526-570 | The command array holds the program, decodes to nothing else, every string offset denotes its string, and the error count is raised by the calls of functions that are not defined |
| Translate.Compile | builder.c:526-570 | Parsing the lexemes of any expression, with declared names for constants or not, and building its nodes with the sizes that the parser counted: no error of the parser, one of the builder if and only if some function that is called is not defined, and the array holds the code of that expression, strings resolved through the table |
| Translate.NoneIsUndefined | builder.c:373-376 | The nodes of an expression call no undefined function if and only if the expression calls none |
| Translate.CodeOfNodes | builder.c:344-517 | An array that holds linked nodes holds the code of the expression that they stand for |
| Translate.ExpressionIsBuildable | builder.c:344-517 | The nodes of an expression are among those that the builder handles, given the codes of the operators |
| Translate.CodeShowsExpression | builder.c:344-517 | Where names are told apart, different expressions never have the same code in the same place |
| Builder.EncodesIsUnique | builder.c:344-516 | Two trees that the array holds under the same number are the same tree |
| Builder.EncodesStays | builder.c:344-516 | What has been built is not disturbed by building under other numbers |
| Builder.BuildObject.StringIndex | builder.c:274-305 | Equal strings share one offset, a new one is appended, nothing stored moves, and the program ends exactly when the guard says so |
| Builder.BuildObject.FindString | builder.c:286-294 | The linear search finds a string exactly when it is in the table |
| Strings.OffsetStays | builder.c:274-305 | An offset once given out stays valid after all later calls |
| Strings.OffsetsDiffer | builder.c:274-305 | Different strings never share an offset |
| Strings.TextAtOffset | builder.c:298-302 | The length and the bytes at an offset are those of the string, whatever is stored behind |
| Strings.ByteAt | builder.c:299-301 | The length before a string has its low byte first, each byte with its power of 256 |
| SymbolTables.CreateTable | builder.c:1378-1404 | The counted size is filled exactly with the records in order |
| SymbolTables.ItemBytes | builder.c:1288-1295 | The aligned size of a record |
| SymbolTables.ItemIsAligned | builder.c:1288-1295 | Room for a long and the zero-terminated name, in the fewest whole longs |
| SymbolTables.Lookup | builder.c:1470-1487 | The search returns the value of the first record of the name, or 0, and terminates at the end of the table |
| SymbolTables.EverySymbolIsFound | builder.c:1470-1487 | With different names every symbol is found with its value |
| Match.Match | match.c:380-504 | With an array entry for each multi-joker, no dangling escape and a buffer longer than the string: matches exactly when some lengths make the string fit, and the captures are those of the smallest such lengths, laid out end to end in the buffer; otherwise, with such a buffer, it reports the error or claims a match exactly on the strings that reach the place of the error |
| Match.MatchMatch | match.c:380-504 | For any sizes the call answers what the search says, and failed attempts leave the captures before them alone |
| Match.TryLengths | match.c:409-451 | The backtracking loop of a joker |
| Match.SearchIsSound | match.c:380-504 | What is found fits |
| Match.SearchIsComplete | match.c:380-504 | If anything fits, lengths at most as large are found first |
| Match.SearchDecides | match.c:380-504 | With enough room the search decides fitting |
| Match.SafeBufferSize | match.c:340-350 | Every call on strings of n characters, for any pattern without a dangling escape, decides if and only if the buffer is larger than n; for n = 1 size 1 is also enough, and for n = 0 any size |
| Match.DocumentedSizeCanClaim | match.c:448-451 | With the documented size a match is claimed that does not exist |
| Match.DanglingNeverFits | match.c:455-458 | A pattern that ends in the escape character fits nothing |
| Match.FaultsAreClaimed | match.c:408-458 | With a buffer larger than the string, and a dangling escape or more multi-jokers than array entries: fails if and only if no lengths lead to the escape, or to a multi-joker without an entry, with string left; otherwise claims a match if a multi-joker comes before that place, and reports that error if not |
| Match.OutcomeIsFirstWay | match.c:380-504 | For all patterns, strings and sizes: the search comes to what the smallest lengths that lead anywhere come to, a match, an error, or a match claimed for an error behind a multi-joker; so the claims are exactly the last |
| Match.SearchTakesFirstWay | match.c:408-451 | The backtracking search finds those lengths, or none lead anywhere |
| Match.WaysDiffer | match.c:408-451 | The lengths that come first are unique |
| Match.ShortArrayIsReported | match.c:410-413 | A short array is reported only if there is no entry at all; otherwise a joker turns that error into a match |
| Match.DanglingEscapeCanClaim | match.c:449-451 | A concrete pattern and string: the error is swallowed behind a joker |
| Match.CountIsEnough | match.c:514-532 | `match_count` is at least the number of jokers that capture |
| Match.MatchCount | match.c:514-532 | The loop counts as the specification does |
| Match.CountOfPieces | match.c:514-532 | The count of a pattern is the number of its joker characters that do not stand behind an escape |
| Match.CaseIsIgnored | match.c:460-496 | With fCase false, changing the case of letters in the pattern or in the string changes nothing of the outcome, for all sizes |
| Match.LiteralsFit | match.c:454-496 | Plain and escaped characters fit themselves, with fCase false also their letters of the other case, and nothing else |
| Match.SpaceFits | match.c:480-488 | A space fits exactly the longest run of white space, which must not be empty |
| Match.MatchIndex | match.c:126-135 | The place of a joker character |
| Match.DefaultSets | match.c:86-110 | What the default sets of `*`, `#`, `$`, `@` and `?` accept, character by character |
| Match.JokerMatchIsAnyHigherBit | match.c:155-163 | For any set: a character is accepted if and only if its bit or a higher bit of the same byte is set |
| Match.JokerMatchIsMember | match.c:155-163 | A set accepts exactly its members if and only if the bits of each of its bytes are closed downwards |
| Logger.StepKeepsInv | logger.c:95-155 | Every step of the writer, of any caller and of a shutdown keeps the queue, exclusion, conservation and wake-up invariants |
| Logger.ReachableInv | logger.c:95-155 | They hold in every reachable state, for any number of callers |
| Logger.Conservation | logger.c:334-347 | Accepted messages are the consumed ones, then the one in the writer's hand, then the queue: in order, none twice or lost |
| Logger.ThreadsAreHeard | logger.c:295-347 | For every run the messages that a thread logs in state NORMAL, computed from the events, are those accepted from it, in its order, and then the one it still holds |
| Logger.EverythingIsHeard | logger.c:295-347 | Each message was logged as often as it was accepted or is still held |
| Logger.StillHasWritten | logger.c:104-127 | When nothing can move and the state is NORMAL, exactly the logged messages have been written, those of each thread in its order |
| Logger.AppendSpells | logger.c:336-345 | Appending at the end pointer extends the linked queue |
| Logger.TakeSpells | logger.c:123-126 | Taking the first item leaves the linked rest; both pointers are null together |
| Logger.WriterIsWoken | logger.c:104-127 | No lost wake-up: with a nonempty queue and a living writer, the writer is looking, or mxRun is free, or a caller is about to unlock it |
| Logger.ChainIsExclusive | logger.c:335-346 | At most one holds mxChain |
| Logger.ClosedStaysClosed | logger.c:295-297 | After shutdown nothing more is accepted by new calls |
| Logger.WhatShutdownWrites | logger.c:104-127 | When log_shutdown sets SHUTTING, every continuation that ends the writer has written all that was accepted so far, if and only if the writer is not just then between its inner loop and its look at the state with something in the queue |
| Logger.WhatIsLeft | logger.c:104-127 | When the writer has ended, the messages not written are those in the queue; all are written if and only if it is empty |
| Logger.RunCovers | logger.c:104-127 | Along any run, a writer that leaves its inner loop has written what was accepted before |
| Logger.ShutdownCanLoseMessages | logger.c:107-118 | A run in which an accepted message is never written |
| Logger.BurstsEnd | logger.c:102-154 | The writer does not spin: between new calls every run is bounded |
| Logger.StillMeansSettled | logger.c:102-154 | When nothing can step any more nothing is waiting: no deadlock |
| Md5.DigestOfPieces | md5.c:144-210 | For any cutting of a message into updates, the digest is that of the padded whole message |
| Md5.MD5Context.MD5Update | md5.c:144-181 | After an update the context is that of the longer message: folded blocks, buffered tail, bit count |
| Md5.MD5Context.MD5Final | md5.c:186-210 | The digest of the absorbed message |
| Md5.MD5Context.CountBits | md5.c:154-158 | The two count words are the bit length modulo 2^64 |
| Md5.MD5Context.Absorb | md5.c:160-180 | Full blocks are folded, the rest is buffered |
| Md5.FoldConcat | md5.c:162-171 | Folding the blocks of two parts is folding those of the whole |
| Md5.PadFits | md5.c:196-203 | The padded message is a whole number of blocks (sections 3.1 and 3.2 of RFC 1321) |
| Md5.PaddedBytes | md5.c:184-203 | The padded message byte by byte: the message, 128, zeros up to the end of a block but eight bytes, and the bit length, low byte first |
| Md5.InitialBytes | md5.c:128-139 | The initial chaining value by its sixteen bytes, as section 3.3 of RFC 1321 lists them |
| Md5.PadIsInjective | md5.c:196-203 | Different messages are padded differently (below 2^61 bytes) |
| Md5.CountAdds | md5.c:154-158 | The carry of the count words |
| Md5.Encode | md5.c:307-320 | Words to bytes, low byte first |
| Md5.Decode | md5.c:325-336 | Bytes to words: the inverse |
| Md5.BytesInjective | md5.c:307-320 | Different words have different bytes |
| Calendar.Tm.MyGmTime | mygmtime.c:154-241 | The fields are the day that a calendar reaches by counting day by day, and the time of day; earlier times are refused |
| Calendar.MyGmkTime | mygmtime.c:55-151 | The carried sum, with the fields rewritten to normal form; -1 exactly for a year out of range or a negative sum, with the month alone brought into range if the year was |
| Calendar.CarryIsTime | mygmtime.c:66-140 | Twelve months more are a year more, and a day, an hour, a minute and a second more are that many seconds, for all fields in range or not |
| Calendar.ThereAndBack | mygmtime.c:55-241 | Up to the end of tm_year 139 the fields of a time convert back to it |
| Calendar.FieldsRoundTrip | mygmtime.c:99-135 | The carried sum of the fields of any time is the time |
| Calendar.DayIsNumbered | mygmtime.c:99-107 | The day-by-day calendar is numbered by the formula and the month tables |
| Calendar.KnownDay | mygmtime.c:224-227 | 1 January 2000, day 10957, is a Saturday |
| Calendar.NumberIsUnique | mygmtime.c:213-222 | A day number has one date |
| Calendar.InRangeIsFieldsOf | mygmtime.c:145-146 | Fields in range, on the right day of the week, are already in normal form |
| Calendar.FieldsInRange | mygmtime.c:205-238 | All fields are in range |
| Calendar.FindYear | mygmtime.c:169-205 | The year of a time by intervals of four years, and the leap flag |
| Calendar.FindMonth | mygmtime.c:217-221 | The table scan |
| NamePath.CleanNamePath | expression.c:1258-1283 | The restarting loop in the buffer terminates with the cleaned name, never longer |
| NamePath.CleanIsFold | expression.c:1258-1283 | On names made of components the loop gives what one pass with a stack gives |
| NamePath.FoldOfRemoved | expression.c:1279-1280 | Removing one up-reference does not change the result of the pass |
| NamePath.ScanComponents | expression.c:1267-1277 | Where the scan stops, for any components |
| NamePath.PullEnd | expression.c:1280 | The overlapping copy pulls the end of the name down |
| NamePath.CleanComponents | expression.c:1258-1283 | The buffer holds the joined result of the pass |
| NamePath.CleanTwice | expression.c:1258-1283 | A clean name stays as it is |
| NamePath.OneStepUp | expression.c:1258-1283 | One step up from any package leaves the name; an underscore with nothing before it stays |
| Segments.Allocator.Alloc | myalloc.c:323-385 | Null exactly for no bytes or beyond the limit; otherwise a new block at the front, counted in the segment and in the net size; all maxima and minima |
| Segments.Allocator.Free | myalloc.c:397-440 | The block leaves the list wherever it stands, both sizes shrink by its size, and so do the minima |
| Segments.Allocator.FreeSegment | myalloc.c:260-287 | All blocks of the segment are released once and leave the net size; the limit and the maxima stay |
| Segments.Allocator.FinishSegment | myalloc.c:297-315 | The segment is gone with its blocks |
| Segments.Allocator.Merge | myalloc.c:454-496 | The first segment has the blocks of both; the second keeps a stale size, so it is well formed again if and only if that was 0; the maximum of the first is not raised, so it is still one if and only if it was not below the sum |
| Segments.Allocator.MergeAndFinish | myalloc.c:506-514 | The first segment has exactly the blocks of both, the second is gone, and the net size is unchanged |
| Segments.Segment.Append | myalloc.c:481-490 | Linking one doubly linked list behind another |
| Segments.Segment.Remove | myalloc.c:423-428 | Unlinking from a doubly linked list |
| Segments.Allocator.NetSizeIsLive | myalloc.c:59-67 | The net size is the sum over the live blocks of all segments |

## Left out

- Memory.Memory.ReleaseVariable: arrays as values; releasing an array releases its elements, and redimensioning moves slots. Values here are numbers, strings, undefined and references.
- SWAP, BYVAL and UNDEF commands as such (`Undef` in `Variables.dfy` is the release of one variable), and duplicates that are not mortal.
- Variables.Program.RunProgram: no arrays, and a variable is released before it becomes a reference; REF on a variable with references is `PrepareRef`.
- Variables.Program.CopyVariable: not for arrays, which are copied element by element.
- Memory.Memory.PrepareRef: only the part of REF before SetRef, on variables that are already dereferenced.
- Cells.FromValue: the cells are made from a finished value, where the reader links them as it reads; freeing lists is not modelled.
- ConfigTree.Tree.DumpTree: a real is printed as the characters that were read, not with `%f`.
- Reals: neither their values nor printing them; the round trip of configurations excludes them.
- Binary configuration files, setting values, and file access; a configuration file is its text.
- `match_ModifySet`, `match_parameter` and `match_size`: several branches do not do what is documented.
- The synchronous logger, file naming and rotation, and the `p` links of log items, which nothing reads.
- `MD5Transform` itself and the zeroing of the context.
- Gross sizes in the allocator's statistics, segment limits set on nonempty segments, and mutexes.
- Lexical analysis, statements and their syntax tables, name spaces, labels, and error texts.
- Symbol tables by hash; saving and loading of binary code; execution.
- Months and years outside `int`, and time zones.
- Failed allocation everywhere.
