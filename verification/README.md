# Verification of the configuration patcher and four smaller cores

This project models, in Dafny, the parts of the repository whose correctness
rests on an argument rather than on a table, and proves what they promise.

**The format-preserving patcher** (`internal/clientconfig`). A JSONC file is
read as a sequence of *pieces* - every byte belongs to one, white space and
comments included - and then as a *tree of pieces*. Lexing and parsing are
proved to be exact inverses of printing (`JsoncLex.LexExact`,
`JsoncSyntax.ParseExact`), so "every other byte is untouched" and "the file
means the same but for one key" become statements about one edited tree. The
lexer, the recursive-descent parser with its token cursor, and every splice of
the patcher are imperative methods over tokens and byte offsets, proved equal
to that tree edit for every source and every edit (`JsoncPatch.PatchJSONC`).
Which sources are read at all is fixed by a second grammar, written in bytes
after RFC 8259 with the comments and the trailing comma of JSONC: a file is
accepted exactly when it is one of its texts, and means what that grammar says
(`JsonAccept.AcceptExact`); keys decode by every spelling of section 7 and by
nothing else (`JsonString.DecodeExact`). On top of it:

- a set rebinds exactly the value at the key path and is refused exactly when
  the meaning of the file says so; the re-parse of the output never fails
  (`JsoncTheorems.SetMeans`), and the tree is kept piece by piece under an
  exact condition (`JsoncSetExact.SetTreeExact`);
- a delete gives the tree without that member if and only if the commas fit and
  no line comment runs on (`JsoncTheorems.DeleteExact`); as long as no comment
  runs on, a stray comma is always caught by the re-parse
  (`JsoncCommas.DeleteRefused`);
- what each edit touches is stated in bytes: one run of tokens and the white space
  next to it (`JsoncCuts.DeleteCuts`), the bytes of one value
  (`JsoncCuts.SetReplaces`), one entry in front of a closing brace
  (`JsoncCuts.CreateInserts`); nothing else changes;
- where a comment does run on, but takes nothing but blanks, comments of one line
  and at most the trailing comma, the edit still succeeds and means what it should
  (`JsoncAbsorb.DeleteStillMeans`, `JsoncAbsorb.SetStillMeans`);
- create-then-delete restores the file byte for byte under an exact condition
  (`JsoncUndo.CreateThenDelete`); patching again changes nothing, for plans that
  set and plans that reset (`ConfigPatch.PatchAgain`, `PlanReset.ResetAgain`, and
  for one set exactly when: `JsoncSwallow.RepatchExact`).

**TOML decisions.** The checks of `patchTOML` are proved to keep a valid document
valid, for documents of any shape, against the rules of the sections "Keys",
"Table" and "Array of Tables" of TOML v1.0.0, with the exact exception, arrays of
tables above the key included (`TomlValid.SetExact`). Every refusal is the one that
the tables and values of the document call for (`TomlRefuse.CreateRefusedExact`).

**Leases.** N processes, two-statement acquires, stale clock samples, lost
answers, crashes: at most one holder at any instant of any run, and the exact
condition under which a holder that counts on its full ttl is overlapped. What one
acquire, refresh or release does is stated for every reachable state, with its
answer lost or not.

**Writes.** A volume whose every operation may fail, with every intermediate
state on record: all-or-nothing replacement, old bytes never lost, plans applied
as a prefix; and a write succeeds exactly when every answer it gets is fine, a name
is free, and at most five locks stand in front of the rename.

**Fragment order, changelog merge, login limiter.** The two-cursor comparison is
a strict weak order in which higher numbers stand first; the merge keeps every line;
the limiter stays bounded and its pruning never drops a live lock.

## Where the code and its comments disagree

The model follows the code. Each point is a proved lemma.

- An own-line delete removes the line break in front of the member. When that
  break ends a `//` comment, the comment takes what follows with it. For any two
  distinct keys there is a file in which deleting the first one silently loses
  the second (`JsoncSwallow.DeleteLosesSibling`). A same-line delete never does
  this (`JsoncSeams.SameLineRemoval`). When the comment takes nothing but blanks,
  comments of one line and the trailing comma, no meaning is lost
  (`JsoncAbsorb.DeleteStillMeans`).
- Deleting a sole member that has a trailing comma, or a last member on a line of
  its own when the object has a trailing comma, would leave `{,}` or `,,`. Unless
  a comment runs on at the cut, both are refused (`JsoncCommas.DeleteRefused`),
  although the file is valid and the key is there; `JsoncWitness.SoleRefused` has
  such a file for any key. A comment that runs on can hide the stray comma, and
  then the delete goes through.
- After an own-line delete of the last member the comma in front of it stays; the
  second comma search of `removeJSONMember` (internal/clientconfig/jsonc.go:415-421)
  never finds a comma (`JsoncPatch.RemoveLastMember` proves its branch dead).
- A `ValueJSON` may end in a `//` comment, which then takes the text behind the
  value with it, unless a line break stands there (`JsoncSetExact.SetTreeExact`).
  For any two keys there is a file in which setting the first one to such a text
  loses the second (`JsoncWitness.SetLosesSibling`).
- A `ValueJSON` that begins with a byte order mark is accepted by the first check
  and always refused by the second. One with blanks or comments around the value
  grows the file on every run (`JsoncSwallow.RepatchExact`).
- A TOML header without keys that lies below the new key is seen by none of the
  checks, and the result is not valid TOML (`TomlValid.HeaderBelowBreaks`). This is
  the only gap, in every document: with an array of tables above the key only the
  headers of the element the key goes into matter (`TomlValid.SetExact`).
- A lease row keeps whole seconds, so its deadline is up to one second earlier
  than `now + ttl`. From any reachable state, a holder that counts on its full ttl
  can be overlapped exactly when that ttl does not end on a whole second
  (`Leases.FullTtlExact`), and never by a second or more (`Leases.OverlapIsShort`);
  counting on the row's own deadline holders never overlap.
- The title of a changelog stays first exactly when a newline ends its line
  (`Changelog.TitleStays`).
- The lock test in the limiter's two pruning paths never decides anything
  (`Limiter.SilenceIsEnough`).

## Model

| member | source | states |
|---|---|---|
| JsoncLex.LexExact | internal/clientconfig/jsonclex.go:40-57 | lexing tiles the input: a source lexes to given pieces iff they are valid, stay apart, and their texts put together (after the mark) are the source |
| JsoncLex.NextTokenExact | internal/clientconfig/jsonclex.go:59-91 | the scanner cuts exactly this piece at this index iff the piece is valid by itself and does not run on into the byte behind it |
| JsoncLex.ConcatLexical | internal/clientconfig/jsonclex.go:40-143 | re-lexing is local: two texts put together lex to their pieces iff each does and the one seam holds (no number, no open line comment in front) |
| JsoncLex.PiecesPrefix | internal/clientconfig/jsonclex.go:40-57 | a printed prefix lexes to its own pieces whatever follows, as long as its last piece may be followed by the next byte |
| JsoncLex.PiecesSound | internal/clientconfig/jsonclex.go:40-57 | whatever the lexer returns is valid, stays apart and is the source text |
| JsoncLexer.ScanJSONString | internal/clientconfig/jsonclex.go:117-130 | the loop finds the closing quote that the specification finds, or none |
| JsonPieces.PieceBytes | internal/clientconfig/jsonclex.go:59-143 | a piece of each kind, in bytes: the four white space bytes, the punctuation, the three words, a run of digits and `-+.eE` that starts like a number, a string that skips what a backslash escapes and holds no line break, a comment of either form |
| JsonPieces.SeamBytes | internal/clientconfig/jsonclex.go:93-143 | in bytes: no number byte may stand behind a number, nothing but a line break behind a line comment |
| JsonText.NumberTaken | internal/clientconfig/jsonclex.go:132-143 | every number of section 6 of RFC 8259 is taken whole in front of anything that is no number byte |
| JsonText.RfcAtoms | internal/clientconfig/jsonclex.go:59-143 | every number, string and word of RFC 8259 may stand as a value |
| JsonText.TextParses | internal/clientconfig/jsonc.go:57-197 | every text of the grammar, RFC 8259 with unique keys and with comments and a trailing comma, parses and means what the grammar says, keys decoded, in order |
| JsonAccept.AcceptExact | internal/clientconfig/jsonc.go:57-197 | a source is accepted iff it is such a text |
| JsonString.DecodeExact | internal/clientconfig/jsonc.go:110-131 | a key literal has a value iff it is spelled by section 7 of RFC 8259, and the value is what the spelling denotes: raw bytes, short escapes, `\u` in either case, surrogate pairs, a surrogate alone as U+FFFD |
| JsonString.WrittenPiece | internal/clientconfig/jsonclex.go:117-130 | every string literal of section 7 is one token, whatever follows |
| JsonString.Utf8Exact | internal/clientconfig/jsonc.go:110-131 | the encoding of every code point is the shortest and is read back |
| JsoncLexer.ScanJSONNumber | internal/clientconfig/jsonclex.go:132-143 | the loop takes digits, `-`, `+`, `.`, `e` and `E`, and stops at the first other byte |
| JsoncLexer.ScanJSONComment | internal/clientconfig/jsonclex.go:93-115 | line and block comments end where the specification says, an unclosed block is refused |
| JsoncLexer.NextJSONToken | internal/clientconfig/jsonclex.go:59-91 | kind and length of the next token, errors included |
| JsoncLexer.LexJSONC | internal/clientconfig/jsonclex.go:40-57 | the token list is the non-space pieces at their offsets, for every source; fails exactly when the source has no pieces |
| JsoncLexer.ToksWithin | internal/clientconfig/jsonclex.go:32-38 | every token lies inside the source |
| Scalars.QuoteBasic | internal/clientconfig/scalar.go:17-41 | the byte loop writes the quoted form of the string |
| Scalars.DecodeQuoted | internal/clientconfig/scalar.go:43-47 | decoding a quoted string under section 7 of RFC 8259 gives the string back |
| Scalars.QuotedPiece | internal/clientconfig/scalar.go:43-47 | scanning a quoted string followed by any suffix consumes exactly the literal |
| Scalars.QuotedIsClean | internal/clientconfig/scalar.go:17-47 | no raw control byte is ever written, and by tomlQuote no raw 0x7F |
| JsoncSyntax.ParseExact | internal/clientconfig/jsonc.go:186-197 | parsing and printing are inverse: a source parses to a tree iff the tree obeys the grammar, stays apart and prints to exactly the source |
| JsoncSyntax.ParsePrintedValue | internal/clientconfig/jsonc.go:73-174 | every grammatical tree, printed anywhere, is parsed back to itself and the cursor stands behind it |
| JsoncSyntax.ParseValueSound | internal/clientconfig/jsonc.go:73-174 | whatever is parsed is grammatical (one comma between members, trailing comma only behind a member, unique keys) and prints to the pieces read |
| JsoncSyntax.DocSound | internal/clientconfig/jsonc.go:57-71 | a parsed document accounts for every piece of the file |
| JsoncSyntax.FindKeyExact | internal/clientconfig/jsonc.go:437-444 | the search finds the first member with the key, and none iff there is none |
| JsoncParser.JsonParser.SkipComments | internal/clientconfig/jsonc.go:51-55 | the token cursor moves over comments as the piece cursor moves over trivia |
| JsoncParser.JsonParser.ParseValueNode | internal/clientconfig/jsonc.go:73-89 | returns the token-index node of the specified tree and leaves the cursor behind it, or fails with it |
| JsoncParser.JsonParser.NextEntry | internal/clientconfig/jsonc.go:91-174 | comma, closer and trailing-comma cases of one round, for objects and arrays |
| JsoncParser.JsonParser.ReadKey | internal/clientconfig/jsonc.go:110-131 | a key is a string that decodes, is not taken yet, and is followed by a colon |
| JsoncParser.JsonParser.ParseObject | internal/clientconfig/jsonc.go:91-143 | the member loop builds the nodes of the specified items; keys stay unique |
| JsoncParser.JsonParser.ParseArray | internal/clientconfig/jsonc.go:145-174 | the element loop builds the nodes of the specified items |
| JsoncParser.JsonParser.ParseDocNode | internal/clientconfig/jsonc.go:57-71 | one value between trivia, nothing behind it |
| JsoncParser.ParseJSONC | internal/clientconfig/jsonc.go:186-197 | the imperative parser fails exactly when the specification does, else returns the tokens and node of its tree |
| JsoncSpans.NodeSpan | internal/clientconfig/jsonc.go:256-266 | the byte span of a node is exactly the text of its tree, brackets included |
| JsoncSpans.MemberSpan | internal/clientconfig/jsonc.go:12-27 | key, key token and value node of member i are those of item i, at its bytes |
| JsoncSpans.MembersInOrder | internal/clientconfig/jsonc.go:91-143 | the spans of an object's members nest, are ordered and do not overlap: opener, key, value, next key, closer |
| JsoncSpans.ElemSpan | internal/clientconfig/jsonc.go:145-174 | element i of an array node is the node of item i, at its bytes |
| JsoncSpans.ElemsInOrder | internal/clientconfig/jsonc.go:145-174 | the spans of an array's elements nest, are ordered and do not overlap: opener, value, next value, closer |
| JsoncSpans.SplicePieces | internal/clientconfig/configpatch.go:159-165 | cutting the bytes between two piece boundaries and putting text in is the printing of the pieces with that text between them; all other bytes stay |
| JsoncPatch.FindJSONMember | internal/clientconfig/jsonc.go:437-444 | the loop over nodes finds the member the tree search finds |
| JsoncPatch.FindJSONComma | internal/clientconfig/jsonc.go:426-435 | returns a comma token in the byte range, and nothing iff there is none |
| JsoncPatch.CommaBetween | internal/clientconfig/jsonc.go:426-435 | between two neighbouring members there is exactly one comma token, whatever comments lie there |
| JsoncPatch.LineStart | internal/clientconfig/jsonc.go:375-388 | walking back over blanks reaches a line break iff the member opens its line, and stops where the cut starts |
| JsoncPatch.CutEnd | internal/clientconfig/jsonc.go:392-410 | the end of the cut of a member that is not last: comma, blanks and, for an own line, one line break |
| JsoncPatch.RemoveInnerMember | internal/clientconfig/jsonc.go:389-411 | the splice for a member that is not last prints the tree without it |
| JsoncPatch.RemoveLastMember | internal/clientconfig/jsonc.go:412-423 | the splice for the last member prints the tree without it; the second comma search finds nothing |
| JsoncPatch.RemoveJSONMember | internal/clientconfig/jsonc.go:334-423 | for every object and key: the bytes of the tree without the member, or the source if there is none |
| JsoncPatch.InsertJSONMember | internal/clientconfig/jsonc.go:446-461 | the entry goes in front of the closer, behind `, `, one blank or nothing, as members and trailing comma require |
| JsoncPatch.JsonValueBytes | internal/clientconfig/jsonc.go:268-278 | the text to write is the printed fragment of the edit; malformed ValueJSON is refused |
| JsoncPatch.JsonMemberEntry | internal/clientconfig/jsonc.go:280-290 | key, colon, blank, value; a delete of a missing key is refused |
| JsoncPatch.JsonNestedEntry | internal/clientconfig/jsonc.go:297-312 | the fold from the leaf outwards prints one fresh object per missing path component |
| JsoncPatch.VerifyJSONC | internal/clientconfig/jsonc.go:463-470 | the output is returned iff it parses |
| JsoncPatch.SetJSONValue | internal/clientconfig/jsonc.go:233-250 | replacing the value's byte span prints the tree with the value replaced |
| JsoncPatch.CreateJSONMember | internal/clientconfig/jsonc.go:212-232 | a missing key becomes one appended member, ancestors included |
| JsoncPatch.PatchJSONC | internal/clientconfig/jsonc.go:200-254 | for every source and every edit, result and error are those of the tree edit, printed and re-parsed |
| JsoncMeaning.EditMeaning | internal/clientconfig/jsonc.go:200-254 | the edit of the tree means the edit of the value, error for error |
| JsoncTheorems.SetMeans | internal/clientconfig/jsonc.go:200-254 | for every source and set whose text ends no file in an open comment: the output means the input with the value bound at the path, and every refusal is the one the meaning dictates |
| JsoncSetExact.SetItemExact | internal/clientconfig/jsonc.go:233-250 | the pieces of a replaced value stay apart from what follows iff the text ends in no line comment or a line break stands directly behind the old value |
| JsoncSetExact.SetTreeExact | internal/clientconfig/jsonc.go:200-254 | for every source and every set, any ValueJSON: the output parses to the input tree with the value in place iff the text ends in no line comment or replaces a value with a line break directly behind it |
| JsoncSetExact.SafeSetMeans | internal/clientconfig/jsonc.go:200-254 | every such set means the input with the value bound at the path, or is refused as the meaning dictates |
| JsoncTheorems.ScalarWritesClosed | internal/clientconfig/scalar.go:43-44 | for scalar edits the condition of SetMeans always holds |
| JsoncTheorems.DeleteExact | internal/clientconfig/jsonc.go:334-423 | the output of a delete parses to the input tree without the member iff the commas fit and no comment runs on |
| JsoncTheorems.DeleteMeans | internal/clientconfig/jsonc.go:334-423 | such a delete succeeds and means the input without exactly that member, order kept |
| JsoncAbsorb.DeleteStillMeans | internal/clientconfig/jsonc.go:334-423 | so does a delete whose comment runs on, when up to the next line break the comment takes only blanks and comments of one line, and behind the last member at most the trailing comma |
| JsoncAbsorb.SetStillMeans | internal/clientconfig/jsonc.go:233-250 | the same for a set whose text ends in a line comment: what it takes up to the next line break is only blanks and comments of one line |
| JsoncCuts.DeleteCuts | internal/clientconfig/jsonc.go:334-423 | a delete takes one run of tokens out: from the key to the comma behind the value; for a last member from the comma in front, or, on a line of its own, from the key to the value's end. Besides, only white space goes: on a shared line the blanks behind the comma, on an own line the line break and blanks in front and the rest of the line behind. All other bytes and, unless a comment opens, all other tokens stay |
| JsoncCuts.SetReplaces | internal/clientconfig/jsonc.go:233-250 | a set replaces the bytes of the one value with the quoted string or the ValueJSON as given, and no other byte |
| JsoncCuts.CreateInserts | internal/clientconfig/jsonc.go:212-232 | a create puts `"key": value`, in one fresh object per missing name, in front of the closing brace, behind `, `, one blank or nothing, and changes no other byte |
| JsoncSeams.RemoveLexical | internal/clientconfig/jsonc.go:375-423 | the pieces left by a delete stay apart iff no line comment runs on into what follows |
| JsoncSeams.SameLineRemoval | internal/clientconfig/jsonc.go:402-410 | a delete within a line never makes a comment run on |
| JsoncPreserve.RemoveLastGrammar | internal/clientconfig/jsonc.go:412-423 | deleting the last member leaves a grammatical object iff the commas fit |
| JsoncPreserve.RemoveInnerGrammar | internal/clientconfig/jsonc.go:389-411 | deleting a member that is not last always leaves a grammatical object |
| JsoncCommas.DeleteRefused | internal/clientconfig/jsonc.go:463-470 | a delete that leaves a stray comma (and opens no comment) is always refused |
| JsoncWitness.SoleRefused | internal/clientconfig/jsonc.go:412-423 | for any key, a file that holds it and from which it cannot be deleted |
| JsoncWitness.SetLosesSibling | internal/clientconfig/jsonc.go:233-250 | for any two distinct keys, a file and a ValueJSON for the first key that is written and loses the second |
| JsoncSwallow.DeleteLosesSibling | internal/clientconfig/jsonc.go:387-403 | for any two distinct keys, a file in which deleting one succeeds and loses the other |
| JsoncRoundtrip.SetBinds | internal/clientconfig/jsonc.go:200-254 | after a set the value stands at the key path |
| JsoncRoundtrip.SetKeeps | internal/clientconfig/jsonc.go:200-254 | after a set every path that neither runs through nor under the key path holds what it held, and one that held nothing still holds nothing |
| JsoncUndo.CreateThenDelete | internal/clientconfig/jsonc.go:334-461 | inserting an absent key, with any trivia in front of its value, and deleting it gives the original bytes iff the object had members and no trailing comma, or was empty with its brace not opening a line |
| JsoncSwallow.SetAgainGrows | internal/clientconfig/jsonc.go:233-250 | setting a value that is there writes the trivia of the edit's text once more |
| JsoncSwallow.RepatchExact | internal/clientconfig/configpatch.go:106-138 | a second run of one set changes nothing iff its text has nothing around the value |
| ConfigPatch.ValidateEdit | internal/clientconfig/configpatch.go:140-157 | an empty path or component, and a delete with a value, are refused before the file is read, nothing else is |
| ConfigPatch.Patch | internal/clientconfig/configpatch.go:106-138 | the loop is the fold of single edits, and reports no change iff the bytes are equal |
| ConfigPatch.PatchAgain | internal/clientconfig/configpatch.go:106-138 | a second run of set edits with incomparable paths returns the same bytes as already patched |
| ConfigPatch.PlanContent | internal/clientconfig/adapter.go:177-213 | the per-edit fold of one plan, with absent deletes counted as done and no net change not written |
| ConfigPatch.PlanMeans | internal/clientconfig/adapter.go:184-202 | a plan of sets means what its edits mean one after the other, up to the first that fails, and fails as that one does |
| ConfigPatch.FirstConnect | internal/clientconfig/adapter.go:177-213 | on an absent file a set that may create gives a file that means exactly its one path |
| PlanReset.ResetAgain | internal/clientconfig/adapter.go:184-202 | running a plan of sets and deletes again on its own result changes nothing, as Apply and Reset promise (adapter.go:74) |
| Toml.SamePath | internal/clientconfig/configpatch.go:171-181 | equality of two key paths |
| Toml.TomlCreateConflict | internal/clientconfig/tomlp.go:314-336 | finds a conflict iff some key is a proper prefix of the path or the path of it |
| Toml.TomlFindSection | internal/clientconfig/tomlp.go:428-435 | the first plain header with this path |
| Toml.PatchTOML | internal/clientconfig/tomlp.go:206-281 | the whole decision, every branch and error, for every scanned document |
| Toml.InsertTOMLRootKey | internal/clientconfig/tomlp.go:454-463 | the new root key stands in front of every header |
| Toml.InsertTOMLKey | internal/clientconfig/tomlp.go:437-452 | the new key stands behind the header and behind the last key read in a table of that name |
| Toml.SetTOML | internal/clientconfig/tomlp.go:206-281 | the document with one literal replaced, one line inserted in its table or one section appended, or the refusal |
| TomlRefuse.CreateRefusedExact | internal/clientconfig/tomlp.go:241-280 | a plain create in a valid document is refused iff a value stands on the way, keys or a header stand at or below the path, the section is an array of tables, or it holds keys and has no header; else it goes in front of the headers, into its section, or to the end |
| TomlRefuse.OtherRefusals | internal/clientconfig/tomlp.go:206-262 | every other decision, read off the tables and values of the document: replace, remove, key not found, unsupported |
| TomlValid.SetKeepsValid | internal/clientconfig/tomlp.go:19-29 | for every valid document: a replace changes that one value; a create with no header below the key leaves a valid document with the old bindings plus the new one |
| TomlValid.CreateKeepsValid | internal/clientconfig/tomlp.go:440-479 | the create half, from the checks alone |
| TomlValid.ReplaceValid | internal/clientconfig/tomlp.go:214-239 | replacing any literal keeps validity and every other table and value |
| TomlValid.CreateExact | internal/clientconfig/tomlp.go:440-479 | for every document: a create that passes the checks adds exactly one binding iff no header lies below the key in the array elements it goes into, and is invalid otherwise |
| TomlValid.SetExact | internal/clientconfig/tomlp.go:19-29 | for every valid document, arrays of tables above the key included: a set rebinds the one value, or adds one binding, or is invalid, the last exactly when a create finds a header below its key in the elements the key goes into |
| TomlValid.HeaderBelowBreaks | internal/clientconfig/tomlp.go:244-280 | for any names, a valid document and a create that passes every check and gives an invalid document |
| Leases.LiveExact | internal/db/leases.go:57-77 | comparing rounded seconds decides exactly whether the deadline has passed |
| Leases.Repo.ReadLease | internal/db/leases.go:57-77 | the row iff present and unexpired |
| Leases.Repo.AcquireLease | internal/db/leases.go:83-126 | an uninterrupted acquire succeeds iff no live row exists, and touches only that row |
| Leases.Repo.RefreshLease | internal/db/leases.go:141-159 | extends iff the caller's own row is live |
| Leases.Repo.ReleaseLease | internal/db/leases.go:163-172 | deletes the caller's own row and nothing else |
| Leases.MutualExclusion | internal/db/leases.go:79-172 | in every run of any number of processes with stale clocks, lost answers and crashes, at most one holds the lease at any instant, and the row names it |
| Leases.RefreshExact | internal/db/leases.go:141-159 | from any reachable state a refresh extends the row iff it is the caller's own live row, drops the claim otherwise, and leaves it when the answer is lost |
| Leases.ReleaseExact | internal/db/leases.go:163-172 | a release empties the row iff it is the caller's own |
| Leases.AcquireExact | internal/db/leases.go:83-126 | an acquire takes a missing or expired row and changes nothing while a live one stands; on another's live row it gives no claim |
| Leases.LostAcquire | internal/db/leases.go:83-126 | with its first answer lost it has taken over an expired row and inserted none |
| Leases.OnlyStatementsWrite | internal/db/leases.go:79-172 | nothing but a statement writes the row, no event touches another process, a crash only loses the claim |
| Leases.LiveRowStays | internal/db/leases.go:139-172 | in every run, nothing that a process with another value does touches a live row |
| Leases.StaleIsHarmless | internal/db/leases.go:141-172 | a statement whose value is not the row's changes nothing unless it is a takeover of an expired row |
| Leases.DeadHolderNeverBlocks | internal/db/leases.go:79-126 | once a row has expired, the next uninterrupted acquire gets it |
| Leases.RoundingLoss | internal/db/leases.go:83-126 | the stored deadline is less than a second early, and exact only on whole seconds |
| Leases.FullTtlExact | internal/db/leases.go:79-126 | from any reachable state without a live row: a takeover can happen before a holder's full ttl is over iff that ttl does not end on a whole second |
| Leases.OverlapIsShort | internal/db/leases.go:79-172 | in every run, a holder that is overlapped has less than a second of its full ttl left, and none when it ends on a whole second |
| Disk.Volume.CreateTemp | internal/clientconfig/atomicwrite.go:174-205 | a new name or nothing, no existing file is touched in any state; done iff a name is free and create and chmod are answered fine |
| Disk.Volume.WriteTemp | internal/clientconfig/atomicwrite.go:139-157 | only the temp file changes in any state; complete when reported so, and reported iff write, sync, chmod and close are all answered fine |
| Disk.Volume.RenameWithRetry | internal/clientconfig/rename.go:25-41 | up to five locks are waited out, no other answer is tried again, the last answer is the outcome; moved iff reported so, with no other state in between |
| Disk.AttemptsExact | internal/clientconfig/rename.go:25-41 | so the rename goes through iff at most five locks stand in front of a fine answer |
| Disk.Volume.WriteFileAtomic | internal/clientconfig/atomicwrite.go:74-137 | at every instant the target is wholly old or wholly new, new iff the call succeeds, and no other existing file changes; it succeeds iff one of sixteen temp names is free, seven operations are answered fine and the rename goes through |
| Disk.Volume.WriteExclusiveBackup | internal/clientconfig/backup.go:35-74 | a backup never alters an existing file; the first free of eight names; done iff one is free and its five operations are answered fine; refused iff all eight are taken |
| Disk.Volume.BackupAndWrite | internal/clientconfig/write.go:24-49 | for an existing target the old bytes are at every instant in the target or in a complete new backup; it succeeds iff the names are free and every operation is answered fine |
| Disk.Volume.ApplyOnePlan | internal/clientconfig/adapter.go:161-222 | the target ends as planned or as it was, and is one of the two at every instant; if nothing fails, as planned iff every edit is accepted |
| Disk.Volume.ApplyPlans | internal/clientconfig/adapter.go:136-157 | plans apply as a prefix: at every instant the targets are as some number of whole plans leaves them; if nothing fails, all plans go through iff each is accepted |
| Disk.OneMorePlan | internal/clientconfig/adapter.go:136-157 | a state in the middle of plan n is a state of a whole number of plans |
| Natural.NaturalLess | internal/changelogfrag/fragments.go:141-170 | the two-cursor loop is the lexicographic order of token lists, digit runs by value |
| Natural.TrimmedOrder | internal/changelogfrag/fragments.go:153-160 | length, then text, of digits without leading zeros is the numeric order |
| Natural.NumbersDecide | internal/changelogfrag/fragments.go:141-170 | behind a common start two digit runs compare as the numbers they write, equal ones leave it to the rest |
| Natural.BytesDecide | internal/changelogfrag/fragments.go:164-166 | behind a common start two different bytes that are not both digits decide |
| Natural.ShorterFirst | internal/changelogfrag/fragments.go:170 | a name comes in front of every longer one that starts with it |
| Natural.HighestFirst | internal/changelogfrag/fragments.go:117-121 | in the sorted list the higher number stands first |
| Natural.Transitive | internal/changelogfrag/fragments.go:117-121 | the order is transitive |
| Natural.Trichotomy | internal/changelogfrag/fragments.go:117-121 | never both ways, and neither way iff the tokens are equal: a strict weak order |
| Natural.TiesAreZeros | internal/changelogfrag/fragments.go:136-140 | two names tie iff they are equal up to leading zeros |
| Natural.OneOrder | internal/changelogfrag/fragments.go:117-121 | the stable descending sort has one possible result |
| Changelog.UnreleasedHeadingIndex | internal/changelogfrag/merge.go:139-148 | the first line that is the heading, and none iff no line is |
| Changelog.UnreleasedBody | internal/changelogfrag/merge.go:119-131 | the text between the heading and the boundary, trimmed at its two ends |
| Changelog.BoundaryExact | internal/changelogfrag/merge.go:104-113 | the section ends at the first later line that starts with `## `, or with the text |
| Changelog.InkPlaced | internal/changelogfrag/merge.go:97-114 | all that is printed in front of the old section or behind the title, then the release, then all that is printed behind, in order and once each |
| Changelog.Conserved | internal/changelogfrag/merge.go:88-131 | body and insertion cut at the same boundary, so nothing printed is lost or doubled |
| Changelog.TitleStays | internal/changelogfrag/merge.go:92-103 | the title stays the first line iff a newline ends it |
| Changelog.Merge | internal/changelogfrag/merge.go:20-60 | refusals; the lines of the output that are not blank are, as they were and in order, those in front, `## [tag] - date`, those of every fragment, of the old body and of the releases; one blank line stands in front of every fragment |
| Limiter.LoginLimiter.Entry | internal/auth/session.go:345-359 | a bucket silent for a window while unlocked is dropped, any other is returned |
| Limiter.LoginLimiter.LoginLocked | internal/auth/session.go:253-267 | locked iff the deadline lies ahead, with the whole seconds that remain |
| Limiter.LoginLimiter.RecordLoginFail | internal/auth/session.go:274-301 | one failure counted, room made for a new bucket first, attempts left |
| Limiter.LoginLimiter.RecordLoginSuccess | internal/auth/session.go:303-308 | the bucket is gone and no other |
| Limiter.LoginLimiter.Sweep | internal/auth/session.go:317-327 | exactly the silent buckets go |
| Limiter.LoginLimiter.EvictOldest | internal/auth/session.go:329-343 | one bucket goes whose last failure is the least of all |
| Limiter.RunKeeps | internal/auth/session.go:229-359 | in every reachable state: at most 5000 buckets, 0 to 4 failures, no lock past the last failure by more than 30 minutes and the time inside one call |
| Limiter.SilenceIsEnough | internal/auth/session.go:320-322 | the lock never matters to pruning: a bucket goes exactly after a silent window |
| Limiter.LiveLockStays | internal/auth/session.go:282-287 | a live lock is never shortened and goes only by a success or as the stalest bucket of a full map without a silent one |
| Limiter.Schedule | internal/auth/session.go:292-299 | the n-th lock falls on failure 5n with step min(n, 4) |
| Limiter.RunCounts | internal/auth/session.go:274-301 | in any run, whatever other clients do, a bucket that is not dropped counts every failure of its client |

## Left out

- JsoncTheorems.DeleteMeans: is silent when a comment runs on; `DeleteStillMeans` has the case in which it takes only text of one line that carries no meaning. A comment that swallows part of a block comment or of a separator and meets fitting text on the next line is left out.
- JsoncAbsorb.DeleteStillMeans: one direction, for the same reason; `DeleteExact` is the exact condition for keeping every piece of the tree.
- JsoncSetExact.SafeSetMeans: one direction, as for deletes; `SetStillMeans` has the case in which the comment at the end of a `ValueJSON` takes only text of one line that carries no meaning.
- JsoncAbsorb.SetStillMeans: one direction, as for deletes; `SetTreeExact` is the exact condition for keeping every piece of the tree.
- JsoncTheorems.SetMeans: is `SafeSetMeans` for texts that end in no line comment, sources that do not parse included.
- JsoncUndo.CreateThenDelete: a `ValueJSON` with blanks or comments behind its value is left out; the delete leaves them in the file.
- ConfigPatch.PatchAgain: needs `ValueJSON` texts that start and end with their value; `RepatchExact` shows why.
- PlanReset.ResetAgain: needs such texts as well, key paths of which none runs through another, and deletes that leave the commas right and open no comment; `DeleteLosesSibling` shows why the last.
- Toml.SetTOML: stops in front of `verifyTOML`, which scans the output again for its syntax and reads the key back. Two refusals come from bytes the model does not have: the line inserted behind a last line without a newline runs into it (`x = 1y = 2`), and a root key inserted at offset 0 stands in front of a byte order mark. The source refuses both outputs, the model returns the document.
- Toml.InsertTOMLKey: a line index, not a byte offset, so a last line without a newline is not seen.
- Toml.InsertTOMLRootKey: a line index, so a byte order mark at offset 0 is not seen.
- Leases.StaleIsHarmless: speaks of one statement; `LiveRowStays` is its form over whole runs.
- Limiter.RunCounts: takes "never dropped" as a condition on the run; `LiveLockStays` and `SilenceIsEnough` say when a bucket is dropped.
- UTF-8 validity: bytes from 0x80 on are carried through the string decoder unchanged, and keys that only the replacement of invalid bytes would make equal are distinct here.
- JsonAccept.AcceptExact: the grammar is as lenient as the source where the standard is not: a number is any run of number bytes that starts like one, and a string that is a value may hold any escape; `RfcAtoms` has those of the standard.
- JsoncCuts.CreateInserts: sets only; a delete with `createIfMissing` below a missing name, which the source does not refuse, is covered by `JsoncPatch.PatchJSONC` alone.
- TOML bytes: scanning, header ranges, line ends and splice offsets are not modelled; documents are lists of headers and keys. Deletes stop at the decision; `removeTOMLLine` and `dropEmptyTOMLTables` are not part of this model.
- TOML inline tables and arrays: values are opaque literals, so an inline table never opens a name.
- TOML dotted keys into tables that only deeper headers name: the standard can be read both ways, and every theorem holds for both readings.
- YAML patching, and the formats other than JSONC in `Patch`.
- File modes, symlinks, junctions, path guards, directory fsync and durability of writes that were reported: the volume keeps what was written in the order it was written.
- The `RemoveFile` branch of `applyOnePlan`, and the names of backups beyond path, stamp and attempt.
- SQL errors other than lost or failed statements; each statement is one atomic step on one row.
- `time.Time` zone and format handling: instants are integers.
- Limiter buckets are values in a map field, not shared pointers; the mutex makes each call one step.
- The rounding of floating-point seconds in `LoginLocked`: the ceiling is exact here.
- `readFragments` file access, `ApplyMerge`, and the live `splice` of fragments into the dashboard.
- JWT, cookies, CIDR lists, adapters' key tables, daemon, tray, dashboard and analytics.
