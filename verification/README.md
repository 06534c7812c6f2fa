# Verified model of the web server's text cores

This project models, in Dafny, four parts of the web server that turn text into structure and back, and
proves what they promise on all inputs.

1. **Emphasis in Markdown** (`EmphasisModel`, `EmphasisPairing`, `EmphasisDelimiters`, `EmphasisScan`,
   `EmphasisHalting`, `EmphasisFirst`, `EmphasisNesting`, `EmphasisMarkers`, `EmphasisText`, `EmphasisSpans`,
   `EmphasisTokens`). Open and close markers of one to three `*` or `_` are paired in a list that grows while
   it is walked, because markers of size 3 are split in two; then a stack pass undoes the pairs that cross. The
   text written holds balanced `<em>` and `<strong>` tags, and between them every other character typed.
   Marker objects with partner links are classes; the passes on them are proved against functions on
   values, and the properties are proved of those.
2. **The configuration language** (`Streams`, `ConfigLexer`, `ConfigGrammar`, `ConfigParser`, `ConfigPrinter`,
   `ConfigQueries`, `ConfigNormalForm`, `ConfigTails`, `ConfigPieces`). A character automaton feeds a token
   automaton that grows a tree of node objects in place; together they accept exactly the texts of a grammar, with
   comments and blanks, and the printer is their inverse on accepted trees of an exactly given shape.
3. **HTTP messages and the reverse proxy** (`Text`, `SortedMap`, `Decimals`, `HttpRequest`, `HttpGrammar`,
   `HttpMessages`, `HttpResponse`, `ProxyRequest`, `ProxyWire`, `ProxyChunks`, `ProxyHandler`, `ProxyRuns`).
   Requests (section 3 of RFC 7230, implemented loosely) are described exactly and have a normal form; what the
   proxy writes to every connection and what it hands back are described end to end, redirects included.
4. **The exact text passes of the Markdown renderer** (`MarkdownPlaceholders`, `MarkdownSpans`,
   `MarkdownPasses`, `MarkdownEntities`, `MarkdownCode`, `MarkdownLines`, `MarkdownTabs`).

Characters stand for bytes. What the network does is a script of connections: each is unreachable or
delivers a sequence of nonempty chunks. The code reads a status code into an uninitialized variable. A word
that is no number makes it 0, but if nothing to read a number from has arrived with the status line the
variable keeps what it held; this is part of the script. Two parameters stand for tables: the reason phrase of
a status code, and the way a token prints the text it took out of a document.

## Where the code does not do what it is meant to

* The pairing pass need not end. On `***a___` an open of size 3 is split into parts of size 0 and 3, and the
  part of size 0 then splits the close into 3 and 0 for ever (markdown/markdown-tokens.cpp:519-555).
  `EmphasisHalting.DisagreeingThrees` is that input. `EmphasisHalting.HaltsExactly` gives the exact condition, a
  scan of the list that a caller can make before the pass; `EmphasisSpans.EmphasisCorrect` holds under it.
* The printer opens a brace pair for each child (nginx-configparser/config_parser.cc:70-77), so a block with
  two or more statements prints text that does not parse. `ConfigNormalForm.TwoChildren` is an input, and
  `ConfigNormalForm.ConfigNormalForm` says for every accepted text which of the two happens.
* A `}` outside all blocks empties the parser's stack; a following word or `}` uses the empty stack, which the
  language leaves undefined. `ConfigNormalForm.EmptiedStack` is an input, `ConfigGrammar.UndefinedExactly` says
  exactly which token sequences do that, and `ConfigParser.ParseConfig` is about all others.
* A bare word or comment that the input ends in is dropped (nginx-configparser/config_parser.cc:209-215):
  `ConfigTails.DroppedWord` is an input, `ConfigTails.DroppedExactly` the exact statement. That a carriage return
  does not end a bare word (line 199) is kept as it is.
* `ProxyHandler::ExtractNonProxyUri` is documented to turn a local uri into a remote one; it strips as many
  characters as the prefix has without comparing them, and leaves a shorter uri alone
  (handlers/proxy_handler.cc:46-61). `ProxyRequest.RemoteUriExactly` and `ProxyRequest.SlashExactly` say when
  the result is the remote uri and when it starts with a slash. A followed redirect is stripped once more, so
  that a redirect to `/other/x` under the prefix `/proxy` asks for `/x`: `ProxyRuns.RedirectLosesPath`, and
  `ProxyRuns.RedirectPathExactly` for all locations. The path of a Location is not checked either: with a blank in
  it, as in `/p/x y`, the next request line has four words (`ProxyRuns.BlankInLocation`, and
  `ProxyRuns.ConnectionsExactly` for all runs).
* The plain ampersand flag is meant to let an ampersand through that starts `&amp;` or a numeric entity, but it
  looks ahead with an expression of which only the first alternative is anchored
  (markdown/markdown-tokens.cpp:47). `MarkdownEntities.MisreadAmpersand` is an input on which it lets another
  ampersand through, and `MarkdownEntities.MeantExactly` the exact condition.
* What the proxy reads depends on how the bytes arrive if the status line holds no second word, because the
  number is then read from whatever is buffered behind it (handlers/proxy_handler.cc:187-192):
  `ProxyChunks.NoNumber` is an input, `ProxyChunks.ChunksExactly` the exact condition.

## Model

| member | source | states |
|---|---|---|
| `EmphasisSpans.EmphasisCorrect` | markdown/markdown-tokens.cpp:509-580 | Main result for emphasis, for every freshly scanned marker list that passes the scan of `EmphasisScan.Harmless`: the pairing pass ends, the list after both passes spells what was typed, the `<em>`/`<strong>` word it writes is balanced, every remaining pair agrees in character and size with its open first, no two pairs cross, and a pair of the first pass remains if and only if no other pair crosses it |
| `EmphasisSpans.AgreeingEmphasisCorrect` | markdown/markdown-tokens.cpp:509-580 | The same for every list without an open of size 3 and a later close of size 3 with the other character |
| `EmphasisSpans.ProcessBoldAndItalicSpans` | markdown/markdown-tokens.cpp:509-580 | The two passes, on mutable marker objects in a growing list that passes the scan, leave a list whose objects are exactly the surviving pairs of the pairing pass; partner links stay symmetric and with equal ids, the spelling is that of the input, and the tag word is balanced |
| `EmphasisPairing.PairAllCorrect` | markdown/markdown-tokens.cpp:509-560 | The pairing pass, when it ends, leaves a matching (partners unique and mutual, open before close, same character and size, all live sizes 1 to 3, disabled markers unmatched), conserves the spelling, and is maximal: no free open has a later free close of the same character and size |
| `EmphasisFirst.TakesFirst` | markdown/markdown-tokens.cpp:514-558 | First come, first served: every live close of the same character and size between an open and the close it was joined with was joined with an earlier open |
| `EmphasisPairing.SearchMeasure` | markdown/markdown-tokens.cpp:516-558 | The inner loop lengthens the list only at the cost of a live marker of size 3: the number of these is the leading termination measure of the two nested loops |
| `EmphasisPairing.SearchKeeps` | markdown/markdown-tokens.cpp:511-559 | The invariant of the outer loop over the search for one open marker: sizes, matching, fresh ids, conserved spelling, and maximality for every open up to and including this one, in spite of splits |
| `EmphasisPairing.SpliceShrinks` | markdown/markdown-tokens.cpp:522-531 | Splitting a live size-3 marker into two smaller ones leaves one live size-3 marker fewer |
| `EmphasisPairing.SpliceKeepsSpelling` | markdown/markdown-tokens.cpp:543-554 | Disabling a marker and inserting its two parts spells the same text |
| `EmphasisPairing.SpliceKeepsPartnered` | markdown/markdown-tokens.cpp:529-531 | Inserting two fresh markers in the middle of the list keeps every partner relation and every id bound |
| `EmphasisHalting.HaltsExactly` | markdown/markdown-tokens.cpp:510-560 | Run as a machine of one loop turn a step, on every freshly scanned list, the pass ends if and only if one scan of the list from left to right, which keeps the waiting opens, never offers a close of size 3 to a longest waiting open of size 3 and another character; equivalently, if it never starts the inner loop for an open of size 3 whose first free close has size 3 and another character; and then it ends with the list of the total function `PairAll` |
| `EmphasisScan.FoundExactly` | markdown/markdown-tokens.cpp:509-560 | The same condition on the input decides the pairing function: it finds a result exactly for the lists that pass the scan |
| `EmphasisDelimiters.ScanIsPass` | markdown/markdown-tokens.cpp:510-560 | Taking the closes one by one and offering them to the waiting opens meets a clash exactly when taking the opens one by one and walking over all later closes does |
| `EmphasisScan.PairStops` | markdown/markdown-tokens.cpp:510-560 | From every position and state of the list the two loops end exactly when the pass over the markers that are still free does |
| `EmphasisHalting.ClashExactly` | markdown/markdown-tokens.cpp:519-556 | The branch that splits 3 into 0 and 3 is taken exactly under its guard: the open has size 3 and the first free close has size 3 and another character |
| `EmphasisHalting.StuckForever` | markdown/markdown-tokens.cpp:519-533 | An open of size 0 that meets a close of size 3 splits it into 3 and 0 for ever: no number of steps ends the loop |
| `EmphasisHalting.AgreeingThreesHalt` | markdown/markdown-tokens.cpp:509-560 | A condition on the input alone: if no open of size 3 has a later close of size 3 with the other character, the pass ends |
| `EmphasisHalting.DisagreeingThrees` | markdown/markdown-tokens.cpp:542-555 | The concrete list of `***a___`, on which the pass never ends |
| `EmphasisHalting.HarmlessThrees` | markdown/markdown-tokens.cpp:519-533 | The condition of `AgreeingThreesHalt` is not necessary: on `*`, `***`, `___` it fails, the first open splits the close, and the pass ends |
| `EmphasisNesting.SurvivesIffNotCrossed` | markdown/markdown-tokens.cpp:562-580 | The declarative form of the stack pass: a pair (o, c) remains exactly if no pair (o', c') has o < o' < c < c' |
| `EmphasisNesting.SurvivorsMatching` | markdown/markdown-tokens.cpp:562-580 | Undoing the crossed pairs leaves a matching in which nothing crosses |
| `EmphasisNesting.NonCrossingBalanced` | markdown/markdown-tokens.cpp:737-748 | Every crossing-free matching writes a balanced tag word, the size-3 tags included |
| `EmphasisNesting.ClosesItsOwn` | markdown/markdown-tokens.cpp:740-745 | The closing tags of a marker close what its own open marker opened: the elements open just before the close are those open just before the open plus the ones the open wrote, and just after the close only the former |
| `EmphasisNesting.TopDecides` | markdown/markdown-tokens.cpp:571-574 | At every matched close the stack is not empty, its top is a matched open that is still pending, and the ids of close and top agree exactly if the pair is not crossed |
| `EmphasisNesting.StackUndoes` | markdown/markdown-tokens.cpp:571-573 | Undoing a crossed pair at its close keeps the stack ready and advances the set of undone pairs by exactly this pair |
| `EmphasisNesting.StackPops` | markdown/markdown-tokens.cpp:574-578 | Popping at a matched close leaves the pending opens, with undone ones only to be popped next |
| `EmphasisNesting.StackEndsEmpty` | markdown/markdown-tokens.cpp:563-580 | A ready stack is empty at the end of the list |
| `EmphasisMarkers.BoldOrItalicMarker.constructor` | markdown/markdown-tokens.h:341-343 | A new marker is free, sound, and has no id |
| `EmphasisMarkers.BoldOrItalicMarker.Matched` | markdown/markdown-tokens.h:359 | Sets partner and id together, so that the marker stays sound |
| `EmphasisMarkers.BoldOrItalicMarker.Disable` | markdown/markdown-tokens.h:361 | A disabled marker can no longer match and keeps its kind |
| `EmphasisMarkers.SplitAt` | markdown/markdown-tokens.cpp:522-531 | Disables a marker object and inserts two fresh ones behind it: exactly `Splice` on the list of tokens, all other objects untouched, consistency kept |
| `EmphasisMarkers.JoinAt` | markdown/markdown-tokens.cpp:538-540 | Links two marker objects to each other under one id: exactly `Join` on the list of tokens |
| `EmphasisMarkers.FindPartner` | markdown/markdown-tokens.cpp:514-558 | The inner loop on the object list computes the search function, grows the list only by fresh objects, and terminates |
| `EmphasisMarkers.PairMarkers` | markdown/markdown-tokens.cpp:509-560 | The outer loop on the object list computes the list `PairAll` gives |
| `EmphasisMarkers.UnnestMarkers` | markdown/markdown-tokens.cpp:562-580 | The stack pass on the object list undoes exactly the crossed pairs and ends with the empty stack |
| `EmphasisMarkers.UndoAt` | markdown/markdown-tokens.cpp:572-573 | Unlinks a close and its partner through the partner link, and nothing else |
| `EmphasisMarkers.PopUndone` | markdown/markdown-tokens.cpp:575-577 | Pops the top while it was undone; the stack then is empty or shows a pending open |
| `EmphasisText.TagTexts` | markdown/markdown-tokens.cpp:741-745 | The tags of a paired marker of size 1 to 3 have exactly the texts the source writes |
| `EmphasisSpans.WriteMarker` | markdown/markdown-tokens.cpp:737-748 | Writing one marker object: nothing if disabled, its character as often as its size if free, and if matched the one of six literal tag texts that its kind and size ask for; the text is made of the tags of its tag word and otherwise of what it spells |
| `EmphasisSpans.WriteAll` | markdown/markdown-tokens.cpp:685-690 | Writing the list of objects gives the rendering of its tokens in order, made of parts as `RenderWritten` says |
| `EmphasisText.RenderWritten` | markdown/markdown-tokens.cpp:685-748 | The text of every list is made of parts, each a literal `<em>`, `<strong>`, `</em>` or `</strong>` or plain characters: up to every token, the tags among the parts are the tag word so far, and the characters are what the list so far spells with its paired markers taken out |
| `EmphasisSpans.WriteSpans` | markdown/markdown-tokens.cpp:509-748 | From the scanned list to the text: the tags in the text are balanced, and the characters between them are all that was typed but the markers of the pairs that are left, so that markers without a partner stay as typed |
| `EmphasisTokens.ProcessSpans` | markdown/markdown-tokens.cpp:509-591 | The whole pass from the scanned list on, over a working text whose placeholders no marker cuts: the tokens it hands on, pieces of text split at their placeholders and markers, stand in order for the restored text of the argument, which exists, and their markers are those of the list that the two passes leave, in order |
| `EmphasisTokens.EncodeTexts` | markdown/markdown-tokens.cpp:582-590 | The last loop: the texts between the markers are split one by one, what all tokens stand for is the restored spelling of the list, and the markers are the objects of the list, in order |
| `Streams.InputStream.Get` | nginx-configparser/config_parser.cc:139-142 | Takes the next character, or leaves the stream not good at its end |
| `Streams.InputStream.Unget` | nginx-configparser/config_parser.cc:201 | Puts the last character back |
| `ConfigLexer.ParseToken` | nginx-configparser/config_parser.cc:136-216 | The character loop with its state variable and its unget computes the lexing function: kind, value and the text left; what that function reads is said by `ConfigPieces.TokensExactly` |
| `ConfigLexer.LexProgress` | nginx-configparser/config_parser.cc:136-216 | A call that gives neither the end of input nor an error takes text, unless it stops at the end of the bare word it is in; so the token loop terminates |
| `ConfigPieces.TokensExactly` | nginx-configparser/config_parser.cc:136-216 | Tokens, exactly, with all characters listed: every text is made of blanks, comments up to the end of their line, bare words, quoted words and punctuation, a bare word being followed by one of six separators, and of an unfinished word, comment or quote; its tokens are the words and the punctuation, and it ends outside quotes if the unfinished part is no quote |
| `ConfigPieces.TextsExactly` | nginx-configparser/config_parser.cc:136-307 | Texts, exactly: a text is accepted into an empty config with tree t if and only if it is made of such pieces whose words and punctuation are the yield of statements with that tree, and of an unfinished word or comment or nothing |
| `ConfigPieces.CommentSkipped` | nginx-configparser/config_parser.cc:192-197 | A `#`, any text without line feed and carriage return and one of these two give no token: the tokens are those of what follows |
| `ConfigPieces.TailTokens` | nginx-configparser/config_parser.cc:209-215 | A bare word or a comment that nothing ends gives no token and ends outside quotes; a quote that is not closed is an error |
| `ConfigPieces.IdleIgnored` | nginx-configparser/config_parser.cc:167-200 | A blank or a comment behind any pieces and in front of any text, inside a statement too, can be taken out without changing the tokens or the outcome of parsing, unless a bare word would then run on |
| `ConfigGrammar.AcceptsExactly` | nginx-configparser/config_parser.cc:218-307 | Accepted with tree t if and only if the text ends outside quotes and the tokens are the yield of a list of statements (words then `;`, or words then a braced list) whose tree, behind what the root already held, is t |
| `ConfigGrammar.UndefinedExactly` | nginx-configparser/config_parser.cc:249-253 | The emptied stack is used if and only if the tokens start with statements, one `}` too many and then a word or another `}` |
| `ConfigGrammar.AcceptedIsWorded` | nginx-configparser/config_parser.cc:115 | In an accepted tree every node below the root has a first word, so that `find` and `findAll` stay in bounds |
| `ConfigGrammar.RunStmts` | nginx-configparser/config_parser.cc:241-300 | The automaton runs over the yield of any statement list and adds exactly its trees to the block on top |
| `ConfigGrammar.RunExplained` | nginx-configparser/config_parser.cc:218-307 | From every state that some open blocks describe, an accepting run is the run of a statement list with that tree |
| `ConfigParser.TakeToken` | nginx-configparser/config_parser.cc:241-300 | One token on the heap: the stack of node objects stays the rightmost path of the tree, the counter of open blocks goes up at a `{` and down at a `}` and stays one less than the size of the stack, the tree grows as the automaton says, or the token is refused exactly when the automaton refuses it |
| `ConfigParser.ParseConfig` | nginx-configparser/config_parser.cc:218-307 | Parsing into an object graph returns true, by the counter of open blocks, exactly when the automaton accepts, and then the graph below `config` is a closed set of nodes whose tree is the accepted one, with every older node kept |
| `ConfigPrinter.PrintParse` | nginx-configparser/config_parser.cc:42-85 | Printing a forest of lexable statements and parsing the text gives the same forest if no statement has two or more children, and false otherwise |
| `ConfigNormalForm.ConfigNormalForm` | nginx-configparser/config_parser.cc:42-307 | Normal form: for every text accepted into an empty config and every indentation, the printed config is accepted with the same tree if no statement has two children, and rejected otherwise |
| `ConfigNormalForm.AcceptedIsLexable` | nginx-configparser/config_parser.cc:136-307 | Every word of every accepted tree reads back as itself, so that the shape of the tree alone decides |
| `ConfigNormalForm.WordsAreLexable` | nginx-configparser/config_parser.cc:136-216 | Every word token of every text is a bare word or a quoted one that the tokenizer reads back as itself |
| `ConfigNormalForm.TwoChildren` | nginx-configparser/config_parser.cc:70-77 | The input `a { b; c; }` is accepted, and what is printed for it is rejected |
| `ConfigNormalForm.EmptiedStack` | nginx-configparser/config_parser.cc:249-282 | The input `a;}b;` uses the emptied stack |
| `ConfigTails.TailIgnoredExactly` | nginx-configparser/config_parser.cc:209-215 | Every text reads as if the token it ends in were not there, if and only if that token is not an open quote |
| `ConfigTails.TailKinds` | nginx-configparser/config_parser.cc:198-215 | What a text can end in: nothing or a bare word or a comment if it ends outside quotes, and an open quote otherwise |
| `ConfigTails.TailIsTail` | nginx-configparser/config_parser.cc:136-216 | What is called the token a text ends in is the end of that text |
| `ConfigTails.DroppedExactly` | nginx-configparser/config_parser.cc:209-215 | Every text is some text and the token it ends in, which is nothing, a bare word, a comment or an open quote; with and without it the text is parsed alike, unless it is an open quote and the text without it is accepted |
| `ConfigTails.DroppedWord` | nginx-configparser/config_parser.cc:209-215 | The input `a;b` is accepted with the statement `a` only |
| `ConfigPrinter.LexableExactly` | nginx-configparser/config_parser.cc:136-216 | The words for which that holds: exactly those that the tokenizer reads back as themselves in front of a blank |
| `ConfigPrinter.LexForest` | nginx-configparser/config_parser.cc:42-85 | The tokens of printed text, at every indentation |
| `ConfigPrinter.RunForest` | nginx-configparser/config_parser.cc:218-307 | The automaton over the tokens of a printed forest: its trees are added, or the run is refused where a node has several children |
| `ConfigPrinter.Layout` | nginx-configparser/config_parser.cc:54-85 | A statement is printed on a line with a `;`, and one with a single child as its words, the child a level deeper, and a closing brace on a line at its own level |
| `ConfigPrinter.IndentSpaces` | nginx-configparser/config_parser.cc:57-59 | Two spaces per level of indentation |
| `ConfigPrinter.JoinWordsCons` | nginx-configparser/config_parser.cc:60-65 | The words are printed in order with one space between each two |
| `ConfigQueries.ToStringSubBlock` | nginx-configparser/config_parser.cc:54-85 | The recursive printer on node objects appends exactly the printed tree |
| `ConfigQueries.ToString` | nginx-configparser/config_parser.cc:42-51 | The printer of the root prints its children only |
| `ConfigQueries.Find` | nginx-configparser/config_parser.cc:100-111 | Returns the words of the first statement whose first word is the key, which is the first that `findAll` lists, or nothing if there is none |
| `ConfigQueries.FindAll` | nginx-configparser/config_parser.cc:112-119 | Returns the very node objects of exactly the statements whose first word is the key, in order, and their trees are those of the specification `Find` uses |
| `HttpRequest.NormalForm` | http/httpRequest.cc:23-128 | Normal form: for every text that parses, printing the request and parsing again gives the same method, uri, version, headers and body |
| `HttpGrammar.RequestsExactly` | http/httpRequest.cc:23-128 | Requests, exactly: a text parses to r if and only if it is a line whose part up to a NUL character holds the three words of r between blanks, nonempty lines of a name, a colon, any character and a value, a blank line and the body of r, and the headers of r are the map of the lines, in ascending order |
| `HttpGrammar.ThrowsExactly` | http/httpRequest.cc:23-101 | The exception, exactly: it leaves the parser if and only if the text has a line with three words, nonempty lines and a blank line, and the first faulty header line ends at its first colon |
| `HttpGrammar.FieldsExactly` | http/httpRequest.cc:33-40 | The words the `strtok` loop delivers are exactly those between the blanks |
| `HttpRequest.ParsePrinted` | http/httpMutableRequest.cc:19-31 | For every request with clean parts, printing and parsing gives the request back, its headers put in order with the last duplicate winning |
| `HttpRequest.ParsedIsClean` | http/httpRequest.cc:23-128 | What the parser accepts is clean: words without spaces, names without colons, no line end in names or values, and every name precedes the next one in the order of `SortedMap.LessExactly` |
| `HttpRequest.LastLineWins` | http/httpRequest.cc:89-101 | The header map of every request that parses is that of the names and values of its lines in order: of several lines with one name the last wins |
| `HttpMessages.Request.ProcessRequestLine` | http/httpRequest.cc:23-51 | The token loop accepts exactly three words before the first line end, as a C string sees them; the line itself is stored whenever there is a line end, the three fields only on success, and nothing else changes |
| `HttpMessages.Request.ProcessMessageBody` | http/httpRequest.cc:53-62 | The body is everything behind the first blank line, or the call fails |
| `HttpMessages.Request.ProcessHeaders` | http/httpRequest.cc:64-105 | Cutting the header block by erasing lines and filling the map line by line gives the header map, the failure for a line without a colon, or the exception for a line that ends at its colon |
| `HttpMessages.Request.ParseRequest` | http/httpRequest.cc:110-128 | A fresh object parses as `Parse` says: success with that request, refusal or exception |
| `HttpMessages.ParseNew` | http/httpRequest.cc:9-20 | The static entry point returns an object exactly if parsing succeeds and throws exactly if a header line ends at its colon |
| `HttpMessages.CutLines` | http/httpRequest.cc:83-87 | Finding, copying and erasing lines one by one splits the text at its line ends |
| `Text.SplitJoin` | http/httpRequest.cc:82-87 | Splitting is the inverse of joining for lines without line ends |
| `Text.FindBlankLine` | http/httpRequest.cc:54 | Behind nonempty lines the first blank line is the one behind the last of them |
| `SortedMap.PutSorted` | http/httpRequest.cc:100 | Assigning a name keeps the names in ascending order, in that sense |
| `SortedMap.PutMap` | http/httpRequest.cc:100 | Assigning a key is a map update: the last value wins, all else is kept |
| `SortedMap.PutAllInOrder` | http/httpRequest.cc:122-125 | A strictly sorted list put into the empty map comes out as it was |
| `SortedMap.LessExactly` | http/httpRequest.cc:100 | The order of names: a proper prefix comes first, and otherwise the smaller character at the first position where two names differ |
| `HttpGrammar.SortedUnique` | http/httpRequest.cc:122-125 | A map has only one list in ascending order |
| `HttpMessages.MutableRequest.SetHeader` | http/httpMutableRequest.cc:8-17 | Overwrites the value of the first header with the name where it stands, or appends the header behind all others; every other entry and field is kept |
| `HttpMessages.MutableRequest.ToString` | http/httpMutableRequest.cc:19-31 | The stream loop prints the request line, every header on a line as in `HeaderTextParts`, a blank line and the body, with the line ends written out |
| `HttpRequest.HeaderTextParts` | http/httpMutableRequest.cc:24-26 | Wherever a header stands in the list, it is printed as its name, a colon, a space, its value and a line end |
| `HttpResponse.Response.SetStatus` | http/httpResponse.cc:3-6 | Sets the code with its phrase and nothing else |
| `HttpResponse.Response.AddHeader` | http/httpResponse.cc:15-17 | Puts one header into the map and changes nothing else; a list in ascending order stays so, and as a map it is updated at the name |
| `HttpResponse.Response.ToString` | http/httpResponse.cc:23-37 | The append loop prints the status line, every header as in `HeaderTextParts`, a blank line and the body, with the line ends written out |
| `ProxyRequest.ForwardedExactly` | handlers/proxy_handler.cc:63-70 | For every parsed request, the bytes forwarded parse to the same method, version and body, the stripped uri, and the old header map updated at Connection and Host only, if and only if the configured host and port hold no line end |
| `ProxyRuns.ConnectionsExactly` | handlers/proxy_handler.cc:159-250 | For every run on a parsed request: each connection goes to the host of the Location that the answer before it gave, the first to the host and port of the call; what is written to it parses to the request, with the path of that Location, as the proxy should rewrite it, if and only if the configured host and port hold no line end and, from the second connection on, what stripping leaves of the path is one word |
| `ProxyRuns.BlankInLocation` | handlers/proxy_handler.cc:178-226 | The Location `/p/x y` under the prefix `/p`: what stripping leaves of its path is no word |
| `ProxyRuns.LocationExactly` | handlers/proxy_handler.cc:73-97 | A Location is split, after trimming, into a scheme, which is dropped if something follows it, a host up to the first slash and a path, by default `/`; one scheme of each kind is dropped, `http://` first |
| `ProxyRequest.ExtractWord` | handlers/proxy_handler.cc:47-61 | The stripped uri is still one word; of a uri that is not shorter than the prefix it is the rest behind as many characters, with a slash in front, and a shorter uri is left as it is |
| `ProxyRequest.SlashExactly` | handlers/proxy_handler.cc:47-61 | The stripped uri starts with a slash if and only if the uri is not shorter than the prefix or starts with a slash itself |
| `ProxyRequest.RemoteUriExactly` | handlers/proxy_handler.cc:46-61 | A uri that starts with the prefix, and no other, is turned into what follows the prefix, with a slash in front; any other that is not shorter gives what the uri with the prefix put in place of as many characters gives, so that the two cannot be told apart; a shorter one stays |
| `ProxyRequest.UriKeptExactly` | handlers/proxy_handler.cc:47-61 | Of the uris that start with a slash, those that are passed on unchanged |
| `ProxyRuns.RedirectPathExactly` | handlers/proxy_handler.cc:178-226 | The request for a followed redirect asks for the path of its Location if and only if stripping the prefix once more leaves that path alone: it is shorter than the prefix, the prefix is empty, or the prefix has one character and the path does not start with two slashes |
| `ProxyRuns.RedirectLosesPath` | handlers/proxy_handler.cc:178-226 | A redirect to `/other/x` under the prefix `/proxy` is followed to `/x` |
| `ProxyRequest.SetInMap` | http/httpMutableRequest.cc:8-17 | Overwriting or appending in a list of distinct names is an update of the map it stands for |
| `ProxyRequest.ModifyRequestForProxy` | handlers/proxy_handler.cc:63-70 | The object after the three setters is the forwarded request |
| `ProxyWire.ReadPrinted` | handlers/proxy_handler.cc:187-241 | However a printed response is cut into chunks, the proxy's status, header and body reads recover its code, headers and body |
| `ProxyWire.HeaderRead` | handlers/proxy_handler.cc:138-157 | A line with a colon is read as the name up to the first colon and the value behind it without the white space, of six kinds, at its ends |
| `ProxyWire.NoColonRead` | handlers/proxy_handler.cc:138-153 | A line without a colon ends the headers if it is blank, and is read as a header with empty name and value otherwise |
| `ProxyWire.NumberValue` | handlers/proxy_handler.cc:191-192 | A sign and digits are read as a number of 32 bits: the largest one if too large, and negated in 32 bits behind a minus sign |
| `ProxyWire.HeadersBuffered` | handlers/proxy_handler.cc:200 | After reading up to the blank line the buffer holds all headers, whatever was left in it by the status line |
| `ProxyWire.TakePrintedStatus` | handlers/proxy_handler.cc:189-195 | The stream operations on a printed status line read the printed code and stop at the start of the headers |
| `ProxyRuns.ProxyTransparent` | handlers/proxy_handler.cc:159-250 | A backend's response with a sorted map of colon-free and newline-free names and trimmed newline-free values, the phrase of its own code and no Location under code 302 is handed back as a response that prints the identical bytes, for every chunking and every positive depth |
| `ProxyRuns.RedirectRun` | handlers/proxy_handler.cc:159-250 | For every script of connections, by the number of redirects it starts with: OK with 404 if the depth limit is reached, BAD_REQUEST with the response as the redirects left it if a connection fails, and else OK with the status and body of the first answer that does not redirect; the headers are the overlay, in order, of those each hop read before its Location, and the number of connections is exact |
| `ProxyRuns.DepthBoundsConnections` | handlers/proxy_handler.cc:163-167 | At most `depth` connections are made, whatever the network does |
| `ProxyHandler.SendRequestToServer` | handlers/proxy_handler.cc:159-250 | The recursive handler, on a response object filled step by step, has the status, connections with the bytes written, and final response of the exchange function; what these are is said by `ProxyRuns.RedirectRun` and `ProxyRuns.ConnectionsExactly` |
| `ProxyHandler.ReceiveHeaders` | handlers/proxy_handler.cc:202-231 | The header loop adds every header in the order read and stops, under code 302 only, at the first Location without adding it |
| `ProxyHandler.ReceiveAnswer` | handlers/proxy_handler.cc:187-241 | One answer read into the response object: status, headers, and the body unless a redirect is followed; if the buffer holds nothing to read a number from, the code is whatever the uninitialized variable held, and if what it holds is no number, the code is 0 |
| `ProxyChunks.UnsetExactly` | handlers/proxy_handler.cc:187-192 | The variable for the code keeps what it held if and only if, in what is buffered once a line end has arrived, no white space lies between two characters that are none |
| `ProxyChunks.NumberExactly` | handlers/proxy_handler.cc:189-195 | A number is read if and only if the buffer holds a second word, from the start of that word, which may be on a later line; otherwise the buffer is used up and the stream fails |
| `ProxyChunks.NoNumber` | handlers/proxy_handler.cc:187-195 | The status line `HTTP/1.1` alone: the code is unset if it arrives in a chunk of its own, and 0 if a header arrives with it |
| `ProxyChunks.ChunksExactly` | handlers/proxy_handler.cc:187-241 | The answer read from a byte stream is the same for all ways to cut it into chunks, and for all values of the uninitialized variable, if and only if there is no line end, or nothing behind the first one, or a second word in front of it |
| `ProxyChunks.SteadyAnswer` | handlers/proxy_handler.cc:187-241 | For these streams it is the answer read when everything has arrived before the first operation |
| `ProxyHandler.SocketReadToEOF` | handlers/proxy_handler.cc:114-127 | The receive loop returns what is left in the buffer and everything still to come |
| `MarkdownPasses.PlaceholdersResolve` | markdown/markdown-tokens.cpp:216-224 | Through any run of replacing and escaping passes from a text without marks, whatever the matches, every placeholder names an entry of the table, so any stretch of the text between segment ends restores and both asserts hold |
| `MarkdownPasses.PassKeeps` | markdown/markdown-tokens.cpp:283-295 | One pass keeps this: all placeholders it leaves lie inside the table it leaves, and the table only grows at its end |
| `MarkdownPasses.RunPass` | markdown/markdown-tokens.cpp:274-299 | The shared loop of the replacing passes, on text and match positions, computes the pass on segments: text before, between and behind the matches is copied, each match is replaced and its tokens are appended to the table |
| `MarkdownPasses.ReplaceMatch` | markdown/markdown-tokens.cpp:373-429 | One match: the number of its placeholder is the table size before its tokens are pushed, and a link leaves its contents between two placeholders |
| `MarkdownPasses.PassMeans` | markdown/markdown-tokens.cpp:274-299 | A pass changes what the text stands for exactly as its matches say: what it leaves restores to the text with every match replaced by what its tokens print, in order, and all else restored as before |
| `MarkdownPasses.PassLeaves` | markdown/markdown-tokens.cpp:274-299 | But for the placeholders that a pass adds, the text it leaves is the text outside the matches and inside the links, so that later passes do not see what was set aside |
| `MarkdownPasses.CodeSpansRestore` | markdown/markdown-tokens.cpp:280-299 | Setting single-backtick code spans aside changes nothing about what the text restores to |
| `MarkdownPlaceholders.SegmentsOfFlat` | markdown/markdown-tokens.cpp:626-657 | Writing characters and placeholders out and finding the placeholders again gives the same characters and placeholders |
| `MarkdownPlaceholders.RestoreProcessedItems` | markdown/markdown-tokens.cpp:626-657 | The loop over the leftmost matches computes the restored text, or no result where the source throws or asserts |
| `MarkdownPlaceholders.RestoreFlat` | markdown/markdown-tokens.cpp:642-649 | Restoring succeeds if and only if every reference of the text is inside the table and the list of escapes |
| `MarkdownPlaceholders.EncodeProcessedItems` | markdown/markdown-tokens.cpp:593-624 | Splitting into tokens fails exactly where restoring fails; otherwise its tokens stand, in order, for the restored text, and with the raw texts taken apart they are exactly the characters and references of the text, one by one |
| `MarkdownSpans.EscapeRoundTrip` | markdown/markdown-tokens.cpp:301-324 | Escaping does not change what a working text stands for, even if it already holds placeholders |
| `MarkdownSpans.EscapeText` | markdown/markdown-tokens.cpp:301-324 | The escape round trip: restoring an escaped text without marks gives the text, trailing backslashes included |
| `MarkdownSpans.NoEscapesLeft` | markdown/markdown-tokens.cpp:301-324 | In an escaped text no backslash stands in front of one of the 16 characters that can be escaped, all listed |
| `MarkdownSpans.EscapableListed` | markdown/markdown-tokens.cpp:24-32 | A character has an index among the escapes exactly if it is one of those |
| `MarkdownSpans.ProcessEscapedCharacters` | markdown/markdown-tokens.cpp:301-324 | The loop over the backslashes computes the escaped text |
| `MarkdownEntities.DecodeEncoded` | markdown/markdown-tokens.cpp:38-61 | Code text encoding is reversible: decoding four entities gives every source text back |
| `MarkdownEntities.EncodedIsSafe` | markdown/markdown-tokens.cpp:38-61 | Encoded code text holds no raw `<`, `>` or `"`, and each `&` starts one of the four entities |
| `MarkdownEntities.NoneLeftRaw` | markdown/markdown-tokens.cpp:38-61 | Under every combination of the flags, no `<`, `>` or quote that a flag concerns is left raw |
| `MarkdownEntities.UntouchedKept` | markdown/markdown-tokens.cpp:38-61 | A text without characters that the flags concern is left as it is |
| `MarkdownEntities.DecodePlain` | markdown/markdown-tokens.cpp:38-61 | A text without ampersands is given back by decoding, under every combination of the flags |
| `MarkdownEntities.MeantExactly` | markdown/markdown-tokens.cpp:45-53 | The plain ampersand flag lets through exactly the ampersands that start `&amp;` or a short numeric entity, as meant, if and only if no other ampersand has a numeric entity somewhere behind it or a later line that starts with `&amp;` |
| `MarkdownEntities.MisreadAmpersand` | markdown/markdown-tokens.cpp:45-53 | The input `&lt;&#65;`: it is let through as it is, where `&amp;lt;&#65;` is meant |
| `MarkdownEntities.PlainExactly` | markdown/markdown-tokens.cpp:38-61 | The plain ampersand flag encodes every ampersand if and only if the text holds neither `&amp;` nor a short numeric entity |
| `MarkdownEntities.EarlierStaysRaw` | markdown/markdown-tokens.cpp:46-53 | In front of any text with a numeric entity `&lt;` is let through, and reads as `<` |
| `MarkdownEntities.EncodeString` | markdown/markdown-tokens.cpp:38-61 | The character loop, with its search from each ampersand on, computes the encoding for every combination of the flags |
| `MarkdownCode.ParseCodeBlock` | markdown/markdown.cpp:213-228 | If the line at the iterator is code, the iterator moves behind the longest stretch of blank and code lines that starts and ends with a code line, and the output is that stretch with indentation stripped and blank lines empty; otherwise nothing moves |
| `MarkdownCode.BlockRoundTrip` | markdown/markdown.cpp:190-228 | Text indented by four blanks, blank lines between its lines included, is one code block and comes out as it was |
| `MarkdownCode.IsCodeBlockLine` | markdown/markdown.cpp:190-211 | The recursive look-ahead moves the iterator behind the line it finds or leaves it unchanged at every depth |
| `MarkdownCode.CodeLineSpec` | markdown/markdown.cpp:190-211 | What it finds is the next code line behind blank lines only; if it finds nothing, the blank lines end at the end or at a line that is not code |
| `MarkdownLines.AnyConvention` | markdown/markdown.cpp:630-674 | For any lines without CR or LF, ending every line with LF, CR, CRLF or LFCR gives the same lines, each the line with its tabs expanded; the last line may lack its end, and then counts if it is not empty |
| `MarkdownTabs.PlainLines` | markdown/markdown.cpp:630-674 | Lines without tabs are read exactly as they are, in each of these conventions |
| `MarkdownTabs.CharExactly` | markdown/markdown.cpp:644-652 | What one more character of a line becomes, from the text in front of it: a tab fills up with blanks to the next multiple of 4 if only blanks and tabs precede it and of the configured width otherwise; every other character is kept behind what is there |
| `MarkdownTabs.InkKept` | markdown/markdown.cpp:644-652 | Whatever the tabs, the characters that are neither blanks nor tabs come out unchanged and in order |
| `MarkdownLines.GetLine` | markdown/markdown.cpp:630-654 | The character loop with its unget computes the line function: line, text left, and whether a line was found; what the line is, is said by `MarkdownTabs.CharExactly` and `AnyConvention` |
| `MarkdownLines.Read` | markdown/markdown.cpp:662-670 | The reading loop collects exactly the lines of the text, as read by `GetLine`, each wrapped as a blank line or as text |
| `MarkdownLines.Document.ReadFrom` | markdown/markdown.cpp:656-674 | A document that has not been processed appends these tokens to its own; one that has refuses and leaves the stream as it is |
| `MarkdownLines.BlankExactly` | markdown/markdown.cpp:101-104 | A line counts as blank exactly if the expression matches it as a whole: up to three spaces, any number of comments, any number of spaces |
| `MarkdownLines.TabStops` | markdown/markdown.cpp:644-647 | A tab appends between one and width blanks, up to the next multiple of the width in force |
| `MarkdownLines.ReadLinesUntabbed` | markdown/markdown.cpp:630-674 | No line that is read holds CR, LF or tab |

## Left out

* Emphasis: the regular expression that finds the delimiters (markdown/markdown-tokens.cpp:466-507). The model
  starts from the list it produces, for any list of text and markers with sizes 1 to 3.
* Emphasis: the linked list with iterators is a sequence of items that holds the same objects; insertion
  behind a position gives a new sequence. Stability of iterators under insertion is built into positions.
- EmphasisSpans.ProcessBoldAndItalicSpans: is about the lists on which the pairing pass ends, because a method without an end has no final state; EmphasisHalting.HaltsExactly shows that these are exactly the lists it admits.
- ConfigParser.ParseConfig: says nothing about the partial tree left in `config` when it returns false, and does not cover inputs that use the emptied stack, since the source then has no defined behaviour.
* Configuration: null child pointers in the printer, which the parser never makes; the overload of `find` that
  copies the node; messages printed on errors; opening files.
* Requests: the `int length` of the header block, which wraps for requests above two gigabytes
  (http/httpRequest.cc:76), is a natural number here.
* Responses: the table of reason phrases is a parameter; a status code of 2^31 or more, which the cast to `int`
  would make negative when it is printed, keeps its value.
* Proxy: sockets, name resolution, the 8192-byte limit of the receive buffer and errors other than the end of
  the connection. A connection that fails counts as unreachable from the start.
* Proxy: `Init` and its port check.
* Markdown passes: the regular expressions that find tags, code spans, links and images. Their matches are
  inputs, at any positions that do not cut a placeholder.
- MarkdownPasses.CodeSpansRestore: covers the single-backtick expression only; a double-backtick span restores with single backticks, and tags and links print in other forms than they were typed.
* Markdown blocks: headers, rules, lists, quotes, inline HTML, link references, and the order in which block
  parsers are tried. Lists and quotes rest on expressions built at run time.
* Handlers that echo, serve files or report status, routing by prefix, MIME types and the server loop: tables,
  input and output, or members that would only add easy statements.
