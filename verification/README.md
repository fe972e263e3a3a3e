# A model of the video client's algorithms

The JNI layer of this Android video-surveillance client contains, beside sockets and codecs, several algorithms
that stand on their own. This project models them in Dafny and states what they promise:

* **Mini-XML** (`jni/xml`): the printer and the parser with their UTF-8 reader, growing buffers and entity table; the
  tree of parent, sibling and child pointers with adding, removing, deleting and reference counts; the walk without a
  stack and its inverse; the attribute array; the index with its quicksort and its binary search.
* **Media frames**: the packetiser of the audio sender, the reassembly loop of the video receiver, the bounded frame
  queue of the player, and the three composed.
* **Message framing**: cutting a TCP stream into messages of a head and a body announced by Content-Length, as in
  RFC 3261, sections 18.3 and 20.14.
* **SIP and HTTP texts**: the printers, the scanner and the parsers.
* **The response mailbox**: waiters that look for replies on a circular list with eviction by age; and the way of an
  answer from the stream to its waiter.
* **The GB2312/UTF-8 transcoder**.

Each component has a specification on values (modules such as `StreamFramingSpec`, `XmlParser`, `MailboxSpec`), the
code as it runs (classes, arrays, pointers and loops, each method tied to the specification), and lemmas that state what
the source promises: round trips, invariants over every run, agreement of a fast form with a simple one.
`dafny verify dfyconfig.toml` checks the whole project.

## How the modules fit together

| file | contents |
|---|---|
| `CString.dfy` | bytes, strstr, strcmp, atoi |
| `Rtp.dfy`, `Reassembly.dfy`, `FrameQueue.dfy`, `Pipeline.dfy` | sender, receiver, queue, and their composition |
| `StreamFraming.dfy`, `FramingSocket.dfy` | framing as a function of the unread bytes and of an arbitrary segmentation; the loops over socket and buffer |
| `Utf8.dfy`, `XmlEntity.dfy`, `XmlPrinter.dfy`, `XmlParser.dfy` | what is written and read, as functions, and the writers and the growing buffer |
| `XmlAttr.dfy`, `XmlNode.dfy`, `XmlWalk.dfy`, `XmlDelete.dfy`, `XmlIndex.dfy` | the tree on the heap, its walk, its deletion, its index |
| `XmlContent.dfy`, `XmlBuilder.dfy`, `XmlLoader.dfy` | the tree a node stands for; saving from and loading to the heap |
| `XmlScanning.dfy`, `XmlRoundTrip.dfy`, `XmlLoaded.dfy`, `XmlUnset.dfy` | loading undoes saving; what every loaded tree is like; when loading follows an unset pointer |
| `XmlSyntax.dfy`, `XmlWords.dfy`, `XmlMargin.dfy` | tags as other programs write them; loading without a callback; the wrap margin |
| `Mailbox.dfy` | the mailbox as steps, and on the circular list |
| `Gb2312.dfy` | the transcoder |
| `Sip.dfy`, `SipHeaders.dfy`, `Http.dfy`, `HttpMessage.dfy` | the text protocols |
| `AnswerPipeline.dfy` | framing, parser and mailbox composed |

The network, the clock and the heap outside the modelled structures are parameters: a segmentation is any function that
says how much a call gets (`Cuts`), lost and repeated packets are any sequence of events, the times an eviction reads are
any sequence of numbers.

## Properties that hold only under a condition

* An attribute that has no value is printed as a bare name, which the parser refuses:
  `XmlRoundTrip.NullValuesAreNotRead` says exactly when a tree comes back.
* The reader skips U+FEFF wherever it stands: `XmlNormalForm.SurvivesExactly` says exactly which trees come back
  unchanged, and `XmlLoaded.LoadSaveLoad` which of those that were loaded do.
* Under an instruction or declaration, which has no end tag, text behind the last element is lost:
  `XmlRoundTrip.SaveThenLoadDocument` says exactly when nothing is.
* The column that decides about a line break counts a reference as one character: `XmlMargin.CountedExactly`.
* A name in quotes is printed but never read (`XmlSyntax.QuotedNameFails`).
* Without a callback, as the client loads its replies, only the first word between two tags is kept, and only if no white
  space stands in front of it: `XmlWords.BetweenTags`.
* A text that starts with white space and a word, as in " x <a/>", makes the loader follow a pointer that was never set
  (`XmlUnset.BlankWordIsLost`): `XmlUnset.LostExactly` says exactly which texts do.
* A frame inside which the 16-bit sequence number wraps is not delivered whole, because the receiver compares
  `nLastSeq + 1` without a wrap (`LosslessDelivery.WrapLosesFrame`): `LosslessDelivery.FragmentThenReassemble` says
  exactly which sends come out unchanged, and `LosslessDelivery.WholeFrameDelivered` which of the frames do. A frame
  whose last packet exceeds the packet buffer must not be sent (`Packetiser.PacketsFitExactly` says which ones these are).
* The framer needs room for one peek behind the head: `StreamFramingSpec.SlackIsNecessary` says exactly how much,
  and that a message with a body has to be shorter than the buffer.
* Searching an index for a value without naming the element can miss matches: `XmlIndex.FindsAllExactly` and
  `XmlIndex.FindsSomeExactly` say exactly for which element names.
* A waiter for the empty command can take the list head for a reply: `MailboxSpec.BrokenOnlyForEmptyCommand` says
  exactly when. No other waiter can (`MailboxSpec.NeverBroken`).
* The player's lists drop frames that arrive when they are full: `FrameQueueSpec.QueueIsFifo` says exactly when none is.
* The transcoder writes three bytes for every code point, although the comment above it shows shorter forms below U+0800:
  `Gb2312Spec.ThreeIsUtf8` says exactly for which ones they are UTF-8.
* A GET request without parameters is printed but not accepted (`HttpGetSpec.ScanAccepts`), nor is a POST request with a
  question mark in its body, as a rule (`HttpMessageSpec.PostAccepted` says exactly when it is).
* An answer whose version is not HTTP/1.1 is accepted, and returned as a GET request (`HttpMessageSpec.KindIs`).
* The number of a message is searched for from the start: `HttpGetSpec.NumberIsReadExactly`,
  `HttpMessageSpec.PostsAreReadExactly` and `HttpMessageSpec.AnswersAreReadExactly` say exactly when it is the one that
  was printed.
* A blank behind Seq: hides the number (`HttpMessageSpec.NumberEndsAtBlank`).
* An answer with a number that is not in the table has no status line (`SipSpec.UnknownAnswerIsLost`).

Where the code and its comments differ the model follows the code: readHeadFlag overwrites the -2 it computes for a head
of 1024 bytes or more (jni/httpAPI.c:338-341), and my_readn never returns the length of a part (jni/httpAPI.c:164-170).

## Model

| member | source | states |
|---|---|---|
| `XmlRoundTrip.SaveThenLoad` | jni/xml/mxml-file.c:1416-2059 | Parser undoes printer, with and without the opaque callback: for every element tree of opaque text (plain names, distinct non-null attributes, readable characters, U+FEFF included; comments, CDATA sections, instructions and declarations inside) and every wrap margin, loading the saved string gives the tree without U+FEFF, with empty texts dropped and adjacent texts merged; without the callback a run of text becomes its first word, and nothing if white space stands in front |
| `XmlRoundTrip.NullValuesAreNotRead` | jni/xml/mxml-file.c:2274-2281 | With either callback: an attribute without a value is written as a bare name, which the parser refuses: the saved tree loads back if and only if every attribute anywhere in it has a value, else the result is NULL |
| `XmlRoundTrip.NullNodesFail` | jni/xml/mxml-file.c:2274-2281 | With either callback: inside any open element, the siblings in front of the first node with a missing value are read and then the load ends with NULL |
| `XmlRoundTrip.SaveThenLoadDocument` | jni/xml/mxml-file.c:2773-2826 | With either callback: a document under an instruction or declaration, which has no end tag: it loads back if and only if every attribute in it has a value and no non-empty text follows its last element; without a value somewhere the result is NULL, else such text is all that is lost, but for a word that is complete |
| `XmlRoundTrip.SaveIsInjective` | jni/xml/mxml-file.c:2684-2951 | Two trees that are saved as the same text, at whatever margins, have, for either callback, the same normal form once U+FEFF is taken out |
| `XmlRoundTrip.ReadRaw` | jni/xml/mxml-file.c:1620-1807 | A comment, CDATA section or instruction is read back byte for byte when no earlier > could close it |
| `XmlRoundTrip.ReadDeclared` | jni/xml/mxml-file.c:1809-1883 | A declaration is read back byte for byte if it has no > and no reference, and no < in its first word |
| `XmlRoundTrip.NodesRun` | jni/xml/mxml-file.c:2697-2951 | Inside an open element the parser turns the bytes written for any list of regular nodes, from any column, into exactly the absorbed list of children without U+FEFF, whatever follows |
| `XmlWords.LoadedIsWorded` | jni/xml/mxml-file.c:1464-1600 | Whatever the bytes and the table: without a callback no opaque node is made; every text is a non-empty word without white space in front, and no two are next to each other |
| `XmlWords.BetweenTags` | jni/xml/mxml-file.c:1469-1600 | Without a callback, behind any tag: the characters up to the next white space or tag, references replaced, become a word exactly if there are any; nothing else up to the next tag becomes a node; a reference that cannot be read ends the load |
| `XmlWords.WordElementIsRead` | jni/xml/mxml-file.c:1464-1600 | An element with one word between its tags, which is what the client reads values from, is loaded as an element with that word as its text, for every word of readable characters without white space |
| `XmlSyntax.StartTagIsRead` | jni/xml/mxml-file.c:2067-2327 | A start tag or empty element as XML allows it: attributes in double quotes, in apostrophes or bare, white space at every place, references in values; they are read in order, and a name that comes twice is an error |
| `XmlSyntax.EndTagIsRead` | jni/xml/mxml-file.c:1884-1924 | An end tag, with white space behind its name, leaves the innermost open element if it has that name, and is an error otherwise |
| `XmlSyntax.TagNameIsRead` | jni/xml/mxml-file.c:1604-1660 | The name of a tag, any characters but white space and slash, is read with its references replaced |
| `XmlSyntax.DeclarationIsRead` | jni/xml/mxml-file.c:1809-1883 | The rest of a declaration, any characters, is read with its references replaced |
| `XmlSyntax.BracketInName` | jni/xml/mxml-file.c:1604-1625 | A bracket in a tag name is an error |
| `XmlSyntax.LoneSlash` | jni/xml/mxml-file.c:2120-2140 | A slash that is not followed by the closing bracket is an error, behind a name and behind attributes |
| `XmlSyntax.NameAlone` | jni/xml/mxml-file.c:2186-2281 | An attribute name in front of a slash, a question mark or the closing bracket is an error |
| `XmlSyntax.QuotedNameFails` | jni/xml/mxml-file.c:2155-2206 | An attribute name in quotes is an error whatever follows, because the equals sign is looked for at the closing quote |
| `XmlSyntax.QuotedNameIsWritten` | jni/xml/mxml-file.c:2609-2660 | A name in quotes is written up to its second quote, escaped in between, and closed |
| `XmlSyntax.EscapeHasNoMarkup` | jni/xml/mxml-file.c:2959-2991 | Escaped text holds no bracket and no double quote, and every & in it starts one of the four references |
| `XmlSyntax.EndsTooEarly` | jni/xml/mxml-file.c:2014-2046 | A document of start tags only is its root if that is the only one, and an error if an element inside it is still open |
| `XmlSyntax.FirstTreeIsLoaded` | jni/xml/mxml-file.c:2014-2046 | Of several trees in a document the first one is loaded |
| `XmlSyntax.CutName` | jni/xml/mxml-file.c:1925-1987 | Input that ends inside a tag name: the element is added and reading stops |
| `XmlMargin.SavedAtMargin` | jni/xml/mxml-file.c:2697-2921 | For trees whose text needs no references and has no line ends, the saved text is that of a layout that counts nothing and looks at the text so far: an attribute stands on a new line exactly if the line with it would cross the margin, a word with white space in front exactly if the line already has |
| `XmlMargin.AttrAtMargin` | jni/xml/mxml-file.c:2725-2770 | One attribute behind any text: a line end stands in front of it exactly if the line with it would be longer than the margin; no line that a fitting attribute ends is longer than the margin and one blank |
| `XmlMargin.CountedExactly` | jni/xml/mxml-file.c:2831-2838 | The column counts a character that is written as a reference as one: it is the column of the text if and only if there is none |
| `XmlNormalForm.NormalIsNormal` | jni/xml/mxml-file.c:1471-1600 | What survives has no empty and no adjacent texts anywhere, and carries the same text in document order |
| `XmlNormalForm.SurvivesExactly` | jni/xml/mxml-file.c:221-231 | A tree survives saving and loading unchanged if and only if it has no empty text, no two texts next to each other, and U+FEFF in no text and no value |
| `XmlLoaded.LoadedIsTidy` | jni/xml/mxml-file.c:1416-2059 | Whatever the bytes, the table and the callback: a tree that is loaded has distinct attribute names with values, no empty text anywhere and no two opaque texts next to each other |
| `XmlLoaded.LoadSaveLoad` | jni/xml/mxml-file.c:221-231 | Whatever the bytes: a tree that was loaded, whose names are plain and whose texts and values are encodings of readable characters, survives saving and loading unchanged, at every margin, if and only if U+FEFF occurs in none of its texts and values |
| `XmlLoaded.ParsedAttrsGood` | jni/xml/mxml-file.c:2198-2281 | The attribute parser never sets a name twice and never sets NULL, on any input |
| `XmlCopy.SaveAndLoad` | jni/xml/mxml-file.c:251-294 | On the heap: saving a tree to an allocated string and loading that builds, out of new nodes, a well-linked tree that holds the normal form of the first one, without U+FEFF |
| `XmlLoading.LoadData` | jni/xml/mxml-file.c:1416-2059 | The whole loop with its pointers parent and first, for every input, with three outcomes: the pointer node is followed before it was ever set, exactly for a text that starts with white space and a word; or root is the tree of the specification, standing alone; or null where the specification fails. The nodes on the heap are well linked each time |
| `XmlUnset.LostExactly` | jni/xml/mxml-file.c:1500-1553 | Whatever the bytes, the table and the callback: the pointer node is read before it is set if and only if the first character is white space and, behind all leading white space, characters and readable references other than a tag run on to white space or a < |
| `XmlUnset.BlankWordIsLost` | jni/xml/mxml-file.c:1500-1553 | One such text: a blank, x, a blank, <a/> |
| `XmlLoading.LoadLoop` | jni/xml/mxml-file.c:1469-2012 | The loop over the characters ends with the tree, the error or the unset pointer of the specification |
| `XmlLoading.AddText` | jni/xml/mxml-file.c:1471-1592 | Which text becomes a node in front of < or white space, and what that does to the whitespace flag |
| `XmlLoading.AddTag` | jni/xml/mxml-file.c:1884-1987 | An end tag must name the innermost open element; a start tag opens an element, or adds an empty one |
| `XmlBuilder.Builder.AddLeaf` | jni/xml/mxml-node.c:729-775 | A new node under parent, or as a tree of its own: the heap holds the tree of the next state |
| `XmlBuilder.Builder.Open` | jni/xml/mxml-file.c:1966-1979 | A new element that becomes parent; the value type is asked for |
| `XmlBuilder.Builder.Close` | jni/xml/mxml-file.c:1905-1924 | parent moves up by one pointer, which is what leaving the innermost element means |
| `XmlBuilder.Builder.Result` | jni/xml/mxml-file.c:2014-2046 | The tree above parent if parent is its root, else null; without parent the first tree read |
| `XmlBuilding.LeafBuilt` | jni/xml/mxml-file.c:1925-1987 | Adding a node under the innermost open element changes no finished tree and no other open element |
| `XmlBuilding.ClosedBuilt` | jni/xml/mxml-file.c:1901-1924 | The element that is left is, with all its nodes, the tree its frame has gathered |
| `XmlLoader.ReadElement` | jni/xml/mxml-file.c:2067-2327 | The attribute parser with its two buffers gives the attributes, the terminating character and the position of its specification for every input, errors included |
| `XmlLoader.ReadAttr` | jni/xml/mxml-file.c:2149-2281 | One attribute: a repeated name, a missing equals sign and a missing value are errors; else the attribute is set and reading stops behind the value |
| `XmlLoader.ReadEntity` | jni/xml/mxml-file.c:1355-1408 | Reads a named or numeric reference of at most 63 characters; anything else, unknown names and control characters give EOF |
| `XmlLoader.ReadTagName` | jni/xml/mxml-file.c:1600-1625 | The word behind < with its references, and the early stop on <?, <!-- and <![CDATA[ |
| `XmlLoader.ReadRaw` | jni/xml/mxml-file.c:1627-1761 | The bytes up to the first > that may close a comment, CDATA section or instruction, or failure at the end of the input |
| `XmlLoader.ReadDeclaration` | jni/xml/mxml-file.c:1809-1843 | The text of a declaration up to >, references replaced |
| `XmlLoader.ReadMarkupTag` | jni/xml/mxml-file.c:1594-1965 | Everything behind a <: the tag and the position behind it are those of the specification |
| `XmlScanning.GetEntityNamed` | jni/xml/mxml-file.c:2959-2991 | The reference the printer writes for a special character is read back as that character |
| `XmlScanning.ReferenceIsRead` | jni/xml/mxml-file.c:1355-1408 | A numeric reference to any code point the reader may return, in decimal or, behind x, in hexadecimal digits in either case, is read as that code point (XML 1.0, section 4.1) |
| `XmlScanning.CharacterReference` | jni/xml/mxml-file.c:1388-1406 | For any digits, leading zeros and numbers that are too large included: the value in base 10 or 16, cut at LONG_MAX, or an error for a control character |
| `XmlScanning.PrefixedHex` | jni/xml/mxml-file.c:1388-1394 | As strtol does, hexadecimal digits may have 0x in front of them once more |
| `XmlScanning.NamedReference` | jni/xml/mxml-file.c:1363-1406 | A named reference is what the table says, if a semicolon ends it, and else an error |
| `XmlScanning.QuotedValueRun` | jni/xml/mxml-file.c:2221-2244 | An attribute value, escaped and in either kind of quotes, is read back up to its closing quote, whatever characters it has, U+FEFF left out |
| `XmlScanning.AttrsRun` | jni/xml/mxml-file.c:2067-2327 | A printed attribute list is parsed back in order, across line breaks put in by the margin |
| `XmlScanning.NullFails` | jni/xml/mxml-file.c:2203-2281 | An attribute list with one attribute without a value is always an error |
| `XmlNulFree.PrintNulFree` | jni/xml/mxml-file.c:399-437 | The text of a tree of C strings holds no NUL, so nothing is lost when it is returned as a C string |
| `XmlSaver.SaveString` | jni/xml/mxml-file.c:399-437 | For every positive buffer size the return value is the size of the whole text of the tree on the heap, and the buffer holds its first min(size, bufsize - 1) bytes and a NUL |
| `XmlSaver.SaveAllocString` | jni/xml/mxml-file.c:251-294 | The complete text is returned, both when it fits the first 8192 bytes and when a second buffer is needed |
| `XmlSaver.WriteNodes` | jni/xml/mxml-file.c:2684-2951 | Following child pointers by recursion and next pointers by the loop writes the text of the trees from the node on, and returns its end column |
| `XmlContent.SameTree` | jni/xml/mxml-node.c:64-187 | A tree whose nodes keep their values and children stays the same, whatever happens elsewhere in the forest |
| `XmlWriter.WriteAttr` | jni/xml/mxml-file.c:2735-2770 | One attribute starts a new line exactly if it would cross the margin; the returned column counts the unescaped width |
| `XmlWriter.WriteName` | jni/xml/mxml-file.c:2609-2676 | A quoted name is escaped up to its quote, any other is copied |
| `XmlWriter.WriteString` | jni/xml/mxml-file.c:2959-2991 | Every character of the string, the four special ones as entities |
| `XmlWriter.StringSink.Putc` | jni/xml/mxml-file.c:2587-2601 | Characters behind the end of the buffer are counted and not stored |
| `Utf8.DecodeEncode` | jni/xml/mxml-file.c:2335-2485 | Decoding the bytes written for any sequence of allowed code points gives the sequence without U+FEFF (RFC 3629, section 3) |
| `Utf8.GetcEncode` | jni/xml/mxml-file.c:628-700 | The reader takes exactly the bytes written for one code point, whatever follows |
| `Utf8.GetcSkipsMark` | jni/xml/mxml-file.c:2423-2455 | A byte order mark is skipped wherever it stands |
| `Utf8.GetcOnlyEncodings` | jni/xml/mxml-file.c:2335-2485 | And nothing else: a character is returned only where, behind byte order marks, its encoding stands, so overlong forms and stray or missing continuation bytes are refused |
| `CharBuffer.Buffer.AddChar` | jni/xml/mxml-file.c:628-700 | The encoding of the character is appended; the growth rule always leaves room for the terminating NUL |
| `CharBuffer.Buffer.Grow` | jni/xml/mxml-file.c:636-658 | Doubling below 1024 bytes and adding 1024 from there on; the contents stay |
| `XmlEntity.EntityValue` | jni/xml/mxml-entity.c:155-457 | Binary search in a sorted table finds the value of a name if it is listed, else -1 |
| `XmlAttr.Attributes.Set` | jni/xml/mxml-attr.c:255-316 | The array is changed in place or extended by one; the contents are the finite map after setting that name |
| `XmlAttr.Attributes.Get` | jni/xml/mxml-attr.c:109-158 | The value of the first attribute with that name, or NULL |
| `XmlAttr.Attributes.Delete` | jni/xml/mxml-attr.c:50-98 | The attributes behind the deleted one are shifted down, nothing else moves |
| `XmlAttrSpec.GetAfterSet` | jni/xml/mxml-attr.c:255-316 | Setting changes what is read under that name and under no other |
| `XmlAttrSpec.GetAfterDelete` | jni/xml/mxml-attr.c:50-98 | With distinct names the deleted name is gone, all others read as before, and names stay distinct |
| `XmlAttrSpec.SetKeepsOrder` | jni/xml/mxml-attr.c:255-316 | A new name goes behind the others, a known one keeps its place |
| `XmlAttrSpec.SetKeepsDistinct` | jni/xml/mxml-attr.c:255-316 | Distinct names stay distinct |
| `XmlAttrSpec.DeleteUndoesSet` | jni/xml/mxml-attr.c:50-98 | Deleting a name that was new brings the old list back |
| `XmlForest.Add` | jni/xml/mxml-node.c:64-187 | For a node that is not parent or above it, and a child other than it, all pointers describe a well-formed forest again: the node's old list without it, the parent's list with it before or after child, or at that end |
| `XmlForest.Remove` | jni/xml/mxml-node.c:600-656 | All pointers describe the forest without that entry in its parent's list; NULL and roots change nothing |
| `XmlForest.AddedNextTo` | jni/xml/mxml-node.c:105-175 | What before and after mean: the neighbour of the added node is child if that is a child of parent, else it stands at that end of the list |
| `XmlForest.RemoveUndoesAdd` | jni/xml/mxml-node.c:600-656 | Removing a node that was added brings back all lists and parents |
| `XmlForest.AddingAboveIsCyclic` | jni/xml/mxml-node.c:64-187 | Adding a node below itself gives parents that no well-formed forest has, so the condition on mxmlAdd is necessary |
| `XmlForest.RemovedWellFormed` | jni/xml/mxml-node.c:600-656 | Removal keeps the forest well formed: no cycle, no node with two places, parents and lists agree |
| `XmlForest.JoinedWellFormed` | jni/xml/mxml-node.c:64-187 | Addition keeps the forest well formed |
| `XmlForest.RunsKeepForest` | jni/xml/mxml-node.c:64-187 | Every sequence of additions and removals that mxmlAdd's condition allows keeps the forest well formed, with the same nodes |
| `XmlForest.New` | jni/xml/mxml-node.c:729-770 | A new node has reference count 1 and is the last child of its parent, or a tree of its own |
| `XmlWalk.WalkNext` | jni/xml/mxml-search.c:130-156 | The pointers followed without a stack lead to the next node of the specified order, for all three descend modes, from any node and for any top, NULL included: top bounds the walk where it is above the node, the root of the tree where it is not |
| `XmlWalk.NextIsFirst` | jni/xml/mxml-search.c:130-156 | With descent the walk leads to the first node still to come in document order, without it to the first one behind the subtree |
| `XmlWalk.WalkAll` | jni/xml/mxml-search.c:130-156 | Iterating from top visits what lies behind top in document order, then stops |
| `XmlWalk.WalkIsExact` | jni/xml/mxml-search.c:130-156 | The nodes visited are exactly the proper descendants of top, each once |
| `XmlPreOrder.PreIsExact` | jni/xml/mxml-search.c:130-156 | Document order lists exactly the nodes at or below top, each once |
| `XmlPreOrder.PastAndTodo` | jni/xml/mxml-search.c:130-156 | For every node the document order is what was visited, the node, and what is still to come |
| `XmlWalk.WalkPrev` | jni/xml/mxml-search.c:168-196 | The backward walk leads to the specified node, going down along last children, from any node and for any top, NULL included |
| `XmlWalk.PrevIsLast` | jni/xml/mxml-search.c:168-196 | It leads to the node just in front in document order, unless that is top |
| `XmlWalk.PrevOutside` | jni/xml/mxml-search.c:168-196 | From a node that top is not above it leads to the node just in front in the whole tree, the root included |
| `XmlWalk.PrevUndoesNext` | jni/xml/mxml-search.c:168-196 | Walking back undoes walking on, at every proper descendant of top whose successor exists |
| `XmlWalk.FindElement` | jni/xml/mxml-search.c:48-118 | The first candidate in the chosen order that matches name, attribute and value, from any node and for any top; NULL for a value without attribute |
| `XmlWalk.ComingStep` | jni/xml/mxml-search.c:109-112 | From a node that is not below top a search with descent goes through the rest of the tree in document order, and if it meets top it stops at the end of what is below top |
| `XmlDelete.Delete` | jni/xml/mxml-node.c:198-278 | Terminates; frees the subtree children first, and leaves a well-formed forest with one entry less in the old parent's list and everything else as it was |
| `XmlDelete.FreedOnce` | jni/xml/mxml-node.c:198-278 | Exactly the nodes of the subtree are freed, each once |
| `XmlDelete.FreedChildrenFirst` | jni/xml/mxml-node.c:198-278 | Every node is freed behind its children |
| `XmlDelete.Release` | jni/xml/mxml-node.c:691-705 | The count goes down by one; the subtree is deleted exactly when it is used up |
| `XmlDelete.Retain` | jni/xml/mxml-node.c:715-721 | The count goes up by one; -1 for NULL |
| `XmlDelete.DeletedWhenReleased` | jni/xml/mxml-node.c:691-721 | Over every run of retains and releases the node is deleted exactly when the releases outnumber the retains for the first time |
| `XmlDelete.CallAll` | jni/xml/mxml-node.c:691-721 | On the heap, every sequence of retains and releases of a new node: the subtree is deleted, each node freed once, if the releases ever outnumber the retains, and else nothing changes but the count |
| `XmlIndexSort.IndexSort` | jni/xml/mxml-index.c:573-644 | Terminates; the part from left to right is sorted by name and then attribute value and is a permutation of what it was; the rest of the array is untouched |
| `XmlIndexSort.Partition` | jni/xml/mxml-index.c:593-623 | With the pivot at left: in front of the meeting point nothing is behind the pivot, behind it everything is |
| `XmlIndexSort.PlacePivot` | jni/xml/mxml-index.c:593-634 | After the exchange of the pivot the part is split at its place |
| `XmlIndexSort.CompareFlips` | jni/xml/mxml-index.c:491-522 | The comparison is antisymmetric and reflexive on indexable nodes |
| `XmlIndexSort.LeqTransitive` | jni/xml/mxml-index.c:491-522 | The order of the index is transitive |
| `XmlIndex.Index.Find` | jni/xml/mxml-index.c:115-284 | On any sorted index each call returns the next of the nodes that the halving and the run behind it determine, and then NULL for ever; a value without an attribute finds nothing |
| `XmlIndex.Index.FindAll` | jni/xml/mxml-index.c:115-284 | From a reset, repeated calls give what was found and then NULL; where the order of the index serves the search, that is every matching node exactly once |
| `XmlIndex.Index.Search` | jni/xml/mxml-index.c:170-258 | The halving loop and its last loop compute the specified position on any index, searchable or not |
| `XmlIndex.HalvingFindsFirst` | jni/xml/mxml-index.c:170-258 | On a sorted index that the search can use, that position is the first match, and none is reported only if there is none |
| `XmlIndex.HitsAreRun` | jni/xml/mxml-index.c:259-271 | The matches are contiguous: those behind the first are the run behind it |
| `XmlIndex.ProbeFalls` | jni/xml/mxml-index.c:530-563 | Along the index order the probe goes from positive over zero to negative |
| `XmlIndex.FindsAllExactly` | jni/xml/mxml-index.c:115-284 | Searching for a value without an element name finds every match, whatever the attribute values, if and only if there are at most two nodes or all have one name (for the empty value the first may have another) |
| `XmlIndex.FindsSomeExactly` | jni/xml/mxml-index.c:170-258 | Such a search finds some match whenever there is one, whatever the attribute values, if and only if there are at most two nodes or the first and the last name are the same; for the empty value, if and only if every name starts at a position that the halving looks at |
| `XmlIndex.FoundIsHits` | jni/xml/mxml-index.c:115-284 | With an element name, or without a value, or under those conditions, what repeated calls return is exactly the matching nodes in index order |
| `XmlIndex.Index.Enum` | jni/xml/mxml-index.c:85-102 | The node at the cursor, which moves on until the end |
| `XmlIndex.Index.Reset` | jni/xml/mxml-index.c:456-483 | The cursor is 0 and the first node is returned, or NULL |
| `XmlIndexBuild.IndexNew` | jni/xml/mxml-index.c:298-444 | The index holds a sorted permutation of the nodes the tree search finds (and of the top node if neither name nor attribute is given) |
| `XmlIndexBuild.Collect` | jni/xml/mxml-index.c:330-368 | The collecting loop stores the nodes of the search in document order |
| `XmlIndexBuild.IndexAgreesWithSearch` | jni/xml/mxml-index.c:298-444 | For every permutation of the indexed nodes, the nodes that match in the index are those the linear search of the tree finds, with multiplicity, and none if another name is searched than the index was built for |
| `XmlIndexBuild.TrustedIsSearchable` | jni/xml/mxml-index.c:298-444 | The order of an index serves a search if the index was built for a name, or is searched with a name or without a value, or holds at most two nodes or nodes of one name |
| `XmlIndexBuild.FindByIndex` | jni/xml/mxml-index.c:115-284 | Building an index, with or without name and attribute, and asking it until NULL gives, under that condition, exactly the nodes the linear search gives, each once (and the top node if it is indexed and matches) |
| `XmlIndexBuild.SearchAll` | jni/xml/mxml-search.c:48-118 | Iterating the linear search gives all matches in document order |
| `XmlIndexBuild.SearchChildren` | jni/xml/mxml-search.c:40-118 | The use its comment recommends, MXML_DESCEND_FIRST and then MXML_NO_DESCEND from match to match, gives exactly the matching children, in order |
| `LosslessDelivery.SendThenReceive` | jni/VideoInstance.c:343-386 | For any list of well-formed frames whose packets fit the packet buffer, sent in order without loss, from any counters: every packet fits, and all frames but the last come out in order; a frame inside which the 16-bit counter wraps is replaced by what its tail is accepted as |
| `LosslessDelivery.FragmentThenReassemble` | jni/VideoInstance.c:343-386 | For any non-empty list of well-formed frames whose packets fit the packet buffer, sent in order without loss, from any counters: what comes out is the frames sent, but the last, if and only if each of these is of a type the decoder takes and the 16-bit counter, at its own value there, does not wrap inside it |
| `LosslessDelivery.WholeFrameDelivered` | jni/VideoInstance.c:343-386 | What comes out for a frame stands between what comes out for the frames in front of it and for those behind it, and is the frame if and only if that is of a type the decoder takes and the counter does not wrap inside it |
| `LosslessDelivery.DeliveredExactly` | jni/VideoInstance.c:343-386 | The same condition on the list of delivered frames, for any counter and any list |
| `LosslessDelivery.BytesDelivered` | jni/VideoInstance.c:343-386 | No more bytes come out than were sent, and fewer if one frame but the last is not whole |
| `LosslessDelivery.WrapLosesFrame` | jni/VideoInstance.c:345-386 | One such send: behind counter value 65534 an I-frame of 1400 bytes, which is two packets, does not come out |
| `LosslessDelivery.StraddlingKeepsSuffix` | jni/VideoInstance.c:379-384 | Of the frame the wrap falls into, a proper non-empty suffix is left in the buffer |
| `LossyDelivery.DeliveredIsCarried` | jni/VideoInstance.c:268-387 | Under any loss, duplication and reordering every delivered buffer is the payload of consecutive packets with one timestamp, and its length is the one its header announces |
| `LossyDelivery.DeliveredFromFirstPacketIsFrame` | jni/VideoInstance.c:268-387 | If such a run starts at a frame's first packet, the buffer is that whole frame |
| `LossyDelivery.BufferBounded` | jni/VideoInstance.c:350-352 | nBufSize stays within 522888, which is 512*1024 - MTU_LEN, whenever a packet is awaited, for packets that fit the packet buffer |
| `LossyDelivery.StampIdentifiesFrame` | jni/AudioInstance.c:264-282 | Among fewer than 2^32 frames the timestamp of a packet tells its frame |
| `Receiver.VideoReceiver.OnPacket` | jni/VideoInstance.c:343-386 | One pass of the loop takes the step of the state machine and hands over exactly the accepted buffer |
| `Receiver.VideoReceiver.Receive` | jni/VideoInstance.c:268-387 | The loop over everything that happens to the socket ends in the state, and delivers the frames, of the run |
| `Transmission.SendAndReceive` | jni/VideoInstance.c:268-387 | The two ends together: what the calls of the send routine write, given to the receive loop between two timestamps, is delivered as stated above, and is the frames sent, but the last, under exactly the condition above |
| `Packetiser.Sender.SendFragments` | jni/AudioInstance.c:270-306 | The fragment loop sends the specified packets, advances the sequence number by their number and returns the bytes written |
| `Packetiser.Sender.SendFrame` | jni/AudioInstance.c:246-307 | One frame: the packets under the next timestamp |
| `Packetiser.Sender.SendFrames` | jni/AudioInstance.c:233-244 | Calls one after another send the packet stream that the receiver's results are about |
| `Packetiser.FragmentsCoverFrame` | jni/AudioInstance.c:267-282 | The payloads of the fragments are the frame: nothing is lost, repeated or swapped |
| `Packetiser.FragmentAt` | jni/AudioInstance.c:272-282 | Fragment i has sequence number s + 1 + i (modulo 2^16) and starts at byte i * fix |
| `Packetiser.PacketCount` | jni/AudioInstance.c:264-282 | The number n of packets of a frame satisfies (n - 1) * 1400 <= length < n * 1400: a frame shorter than the MTU is one packet, and every packet but the last carries at most MTU_LEN bytes |
| `Media.HeadIsRead` | jni/dev_type.h:80-92 | Size and type of a frame are those fields of the structure that its first 32 bytes are, in the byte order of the machine |
| `Packetiser.PacketsFitExactly` | jni/AudioInstance.c:267-275 | Exactly when every packet of a frame, the header of 16 bytes included, fits 1400 bytes; the last packet decides |
| `Packetiser.SentPacketsFit` | jni/AudioInstance.c:267-275 | Every packet sent for a list of frames fits the packet buffer if and only if that holds for each frame |
| `FrameQueueSpec.QueueIsFifo` | jni/playList.c:168-295 | Over every run, for both lists: the frames put in while there was room are those taken off, in that order, followed by those still queued; they are a subsequence of the frames put in, and all of them if and only if the list was never full at an arrival |
| `FrameQueueSpec.AcceptedWasOffered` | jni/playList.c:255-295 | No frame is invented or reordered: those accepted are a subsequence of those put in, header and payload |
| `FrameQueueSpec.QueueBounded` | jni/playList.c:66-103 | Over every run neither list holds more than 201 frames |
| `FrameQueueSpec.ReturnedVideoFrame` | jni/playList.c:168-210 | Over every run a returned video frame is within 25 of the previous number (32-bit arithmetic) or an I-frame, its number is remembered, and it is the first frame put in while there was room that has not been taken off |
| `FrameQueueSpec.GetVideoTakes` | jni/playList.c:168-210 | Over every run: st_getFrameListHead takes nothing off and returns the head if that is not more than 25 numbers ahead; else it takes off exactly the frames in front of the first queued I-frame; nothing is returned exactly if the list is empty, or there is such a gap and no I-frame is queued |
| `FrameQueueSpec.RemoveTakes` | jni/playList.c:213-252 | Over every run: removing takes off the head of its own list, if there is one, and nothing else |
| `FrameQueueSpec.InputTakes` | jni/playList.c:66-103 | Over every run: a frame longer than its header goes to the end of its own list, audio or video, exactly if that holds at most 200 frames; the other list stays |
| `FrameQueueSpec.StagedIs` | jni/playList.c:255-295 | What is stored is the announced number of bytes behind the header: the data cut to it, or filled up with zeros |
| `FrameQueueSpec.NumberIsRead` | jni/dev_type.h:80-92 | The number of a frame is that field of the structure its first bytes are |
| `FrameQueueSpec.ReturnedAudioFrame` | jni/playList.c:196-204 | Over every run a returned audio frame is the first one put in while there was room that has not been taken off, and none is returned exactly when all have been taken |
| `FrameQueueSpec.SkipToKeySuffix` | jni/playList.c:185-191 | After a gap frames are dropped only from the front, none of them an I-frame, up to the first I-frame |
| `FrameQueue.PlayList.InputTail` | jni/playList.c:255-295 | The linked lists hold the queue after the input; data without payload is refused |
| `FrameQueue.PlayList.GetVideoHead` | jni/playList.c:168-210 | The skipping loop and prev_Vframe_no take the specified step, and the node returned is the head |
| `FrameQueue.PlayList.RemoveVideoHead` | jni/playList.c:213-252 | The head is taken off, the other list is untouched |
| `FrameQueue.PlayList.DoAll` | jni/playList.c:168-295 | Any sequence of calls leaves the linked lists in the state of the run |
| `FrameQueue.AddNode` | jni/playList.c:66-103 | The frame is appended unless the walk to the end has counted MAX_FRAME_LIST_NUM nodes |
| `FrameQueue.Count` | jni/playList.c:306-328 | The number of nodes |
| `Pipeline.SenderToPlayer` | jni/VideoInstance.c:367-369 | Sender, receiver and frame queue composed, with the calls of the player anywhere in between: what the player has taken off a list followed by what is in it is a subsequence of what comes out for that list, and all of it if and only if the list was never full at an arrival; and what comes out is the frames sent, but the last, under exactly the condition above |
| `Pipeline.ReceiverToPlayer` | jni/VideoInstance.c:367-369 | The same under any loss, duplication and reordering of packets that fit the packet buffer: what the player has taken off a list followed by what is in it is a subsequence of the buffers delivered for that list, and all of them if and only if the list was never full at an arrival |
| `Pipeline.DeliveredIsAcceptable` | jni/playList.c:255-295 | Whatever happens to the packets, what the receiver delivers keeps the queue's buffer rules and is stored unchanged |
| `Pipeline.OfferedIsDelivered` | jni/playList.c:255-295 | What is put into a list is, in order and unchanged, what was delivered for it |
| `StreamFramingSpec.StreamFraming` | jni/httpAPI.c:67-109 | For every concatenation of head and Content-Length messages that fit and every segmentation, successive calls return exactly the messages, in order |
| `StreamFramingSpec.StreamBreaksOff` | jni/httpAPI.c:67-172 | A stream that ends inside a message gives the messages in front of it, under every segmentation, and nothing of that one |
| `StreamFramingSpec.RecvPackageExact` | jni/httpAPI.c:67-109 | One call returns the first message and consumes exactly its bytes, however the stream is cut |
| `StreamFramingSpec.SlackIsNecessary` | jni/httpAPI.c:255-345 | A message comes out under every segmentation if and only if the buffer has room for the head and one more peek, or for all there is, and is longer than the message unless that has no body |
| `StreamFramingSpec.HeadLenOfPrefix` | jni/httpAPI.c:315-342 | The head is recognised as soon as its last byte is there and not before |
| `StreamFramingSpec.ReadHeadRet` | jni/httpAPI.c:255-345 | A reported head lies inside the buffer, and every call consumes something |
| `FramingSocket.ReadHeadFlag` | jni/httpAPI.c:255-345 | The peek-and-discard loop leaves the buffer, the socket and the result of the specification, and never peeks behind a buffer of nMax + 1 bytes if the next head leaves room for a peek |
| `FramingSocket.PeekHasRoom` | jni/httpAPI.c:288-302 | No peek is written behind the buffer: with a buffer of nMax + 257 bytes, or if all that comes fits nMax, or if the head of the next message leaves room for a peek |
| `FramingSocket.MyReadn` | jni/httpAPI.c:120-172 | All n bytes behind the offset, or 0 if the stream ends first; what is in front of the offset stays |
| `FramingSocket.ReceivePackage` | jni/httpAPI.c:67-109 | As long as no peek is written behind the buffer: the buffer, the rest of the stream and the result are those of the specification |
| `FramingSocket.ReceiveMessages` | jni/clientlink.c:544-585 | Reading on with one buffer while the stream lasts, also after a call without a message, gives the messages of the specification; for messages that fit, a buffer of nMax + 1 bytes is enough and exactly they are received |
| `CString.StrStrIsFirst` | jni/httpAPI.c:67-109 | strstr finds the first occurrence, and finds one if there is one |
| `SipSpec.RequestRoundTrip` | jni/DecodeSip.c:125-254 | Parsing a printed request recovers command, header, To, From, Call-ID, CSeq, Content-Type, Max-Forwards 70, Content-Length and the body |
| `SipSpec.OkRoundTrip` | jni/DecodeSip.c:739-763 | The command OK is sent and read as the answer 200 |
| `SipSpec.AnswerRoundTrip` | jni/DecodeSip.c:375-507 | For every number of the answer table, number, reason and all fields are read back |
| `SipSpec.UnknownAnswerIsLost` | jni/DecodeSip.c:375-507 | Any other number is never read back: the message has no status line |
| `SipSpec.SplitMessage` | jni/DecodeSip.c:151-179 | The line loop finds the printed lines and stops behind the empty one |
| `SipMessages.MessageFits` | jni/DecodeSip.c:125-254 | A printed message whose values and first line keep their field sizes keeps every buffer size of the parser |
| `SipMessages.SipCmd.Parse` | jni/DecodeSip.c:125-254 | The fields and the body are those of the specification, early returns included |
| `SipMessages.ReadLines` | jni/DecodeSip.c:151-179 | Up to twenty lines, or up to the empty one, or none at all if an end of line is missing |
| `SipMessages.SetGeneral` | jni/DecodeSip.c:693-733 | The text of the seven header lines and the empty one |
| `SipMessages.MakeRequest` | jni/DecodeSip.c:327-373 | Request line, header lines and body in one message |
| `SipMessages.AnswerRequest` | jni/DecodeSip.c:375-507 | Nothing below 100; else status line and header lines copied from the request |
| `Text.AtoiOfSigned` | jni/DecodeSip.c:726-728 | atoi undoes %d |
| `Text.AtoiReads` | jni/DecodeSip.c:199-254 | atoi skips white space, takes a sign, and stops at the first character that is no digit |
| `SipHeaders.LetterIsRead` | jni/DecodeSip.c:125-254 | A message with any header lines in any order, with any bytes behind them: every field holds the value of the last line of its name, cut to its size, and is kept without one; the body is cut at the last Content-Length (RFC 3261, section 18.3); the twentieth line ends the head |
| `SipHeaders.BodyIsRead` | jni/DecodeSip.c:238-254 | A body of the announced length is read whole, whatever stands behind it |
| `SipHeaders.FirstLineIsRead` | jni/DecodeSip.c:607-657 | The first line: number and reason of an answer, cut to 16 and 48 characters, or command and address of a request |
| `SipHeaders.BrokenOffIsIgnored` | jni/DecodeSip.c:151-179 | A message whose lines break off is not read at all |
| `HttpGetSpec.GetRoundTrip` | jni/httpAPI.c:650-772 | Parsing a printed GET request recovers type, number, command and the ordered pairs, for names and values without & = blank and line end, a command without ? blank and line end, and a first line in which Seq: does not occur |
| `HttpGetSpec.ScanAccepts` | jni/httpAPI.c:1636-1710 | The scanner accepts a printed request if and only if it has a command and at least one pair and is shorter than 128 KiB |
| `HttpGetSpec.PrintedFits` | jni/httpAPI.c:650-772 | A printed request with up to 16 pairs that fits the printer's 512 bytes and the fields keeps every buffer size of the parser |
| `HttpGetSpec.NumberIsReadExactly` | jni/httpAPI.c:1051-1074 | The number of a printed request is read back, whatever it is, if and only if Seq: does not occur in its first line |
| `HttpGetSpec.ScannedIsGet` | jni/httpAPI.c:1126-1138 | What the scanner accepts as a GET request, leading blanks included, is parsed as one |
| `HttpMessages.ScanHttpMsg` | jni/httpAPI.c:1636-1835 | The nested scan loops accept exactly the specified messages: GET and POST requests and answers |
| `HttpMessages.HttpObject.ParseHttp` | jni/httpAPI.c:650-773 | 0 and an empty object for a message that is not accepted; else type, number, command, pairs and body as specified for each of the three methods |
| `HttpMessages.MakeHttp` | jni/httpAPI.c:596-647 | The text, GET, POST or answer, is copied to the front of the buffer, without its NUL; the rest of the buffer stays |
| `HttpGet.GetSeq` | jni/httpAPI.c:1051-1074 | The number behind Seq:, blanks acting as its end |
| `HttpMessageSpec.GetIsParsed` | jni/httpAPI.c:687-718 | The parser for all three methods takes a printed GET request for one, recovers number, command and pairs, and none of its buffers is too small for a request with up to 16 pairs that fits the printer's 512 bytes and the fields |
| `HttpMessageSpec.GetScannedExactly` | jni/httpAPI.c:1636-1710 | A GET request of any version, with any parts of a query, header lines and body, is accepted if and only if it has a command, its query starts with something and an equals sign and goes on with pairs, each header line has a colon, and it is shorter than 128 KiB; without an & in the query the next one in the message is taken for it |
| `HttpMessageSpec.GetIsRead` | jni/httpAPI.c:687-718 | Of a GET request of any version, with any header lines and body, command, pairs in order and number are read |
| `HttpMessageSpec.NumberEndsAtBlank` | jni/httpAPI.c:1051-1074 | Whatever the lines: the number is what atoi makes of the characters behind the first Seq:, up to a blank or tab, so none if a blank comes at once |
| `HttpMessageSpec.AnswerRoundTrip` | jni/httpAPI.c:750-771 | Parsing a printed answer recovers type, number, command and body, and keeps the parser's buffers, for a command without line ends in whose line Seq: does not occur |
| `HttpMessageSpec.AnswersAreReadExactly` | jni/httpAPI.c:1051-1074 | Printed answers are read back, whatever number and body, if and only if Seq: does not occur in the line that names the command |
| `HttpMessageSpec.AnswerAccepted` | jni/httpAPI.c:1798-1827 | The scanner accepts a printed answer, whatever its body, if and only if it is shorter than 128 KiB |
| `HttpMessageSpec.AnswerScannedExactly` | jni/httpAPI.c:1798-1827 | An answer of any version, with any status text, header lines and body, is accepted if and only if each header line has a colon and it is shorter than 128 KiB |
| `HttpMessageSpec.AnswerIsRead` | jni/httpAPI.c:750-771 | An answer of version 1.1 with any status and any header lines: number, command and body are read, from the first lines in which their names occur |
| `HttpMessageSpec.PostRoundTrip` | jni/httpAPI.c:719-749 | Parsing a printed POST request recovers type, number, command and body |
| `HttpMessageSpec.PostsAreReadExactly` | jni/httpAPI.c:719-730 | Printed POST requests are read back, whatever number and body, if and only if the command has no slash and Seq: does not occur in the first line |
| `HttpMessageSpec.PostAccepted` | jni/httpAPI.c:1710-1796 | The scanner accepts a printed POST request with pairs as body if and only if it has a command and at least one pair, is shorter than 128 KiB, and behind the first question mark in the body, if there is one, comes an = that does not follow at once and behind that no & |
| `HttpMessageSpec.PostScannedExactly` | jni/httpAPI.c:1710-1796 | A POST request of any version, with any header lines without question marks and any parts as body, is accepted if and only if it has a command, the parts have one equals sign each, the first one something in front of it, the header lines their colons, and it is shorter than 128 KiB; a question mark in the body changes what is looked at |
| `HttpMessageSpec.PostIsRead` | jni/httpAPI.c:719-749 | Of a POST request of any version and with any header lines, command, body and number are read |
| `HttpMessageSpec.KindIs` | jni/httpAPI.c:687-753 | What the parser makes of a scanned message: P is a POST request, version 1.1 an answer; an answer of any other version is returned as a GET request without command |
| `HttpMessageSpec.AnswerKind` | jni/httpAPI.c:1076-1138 | The word the parser takes for the method of an accepted answer is HTTP/1.1 if and only if the answer starts with it, whatever CR and LF stand where the version digits should be |
| `MailboxSpec.MailboxSafety` | jni/netglobal.c:238-339 | Over all interleavings of additions, evictions and waits: added = delivered + evicted + queued as multisets, the counter is the list length, every delivered reply answers its request, and the list is the newest-first arrival order with gaps |
| `MailboxSpec.EachReplyOnce` | jni/netglobal.c:291-336 | No reply goes to two waiters, and a waiter gets what it asked for |
| `MailboxSpec.WaitIsRun` | jni/netglobal.c:238-339 | A whole wait, with its eviction and the arrivals between its looks, is a run of the steps, which delivers exactly what the waiter gets |
| `MailboxSpec.LookStep` | jni/netglobal.c:284-336 | Entry by entry, the newest first: it is taken if it has the command and, if it is an answer, the number; else it stays and the look goes on |
| `AnswerPipeline.WaiterGetsAnswer` | jni/clientlink.c:614-643 | From the server to the waiter, through framing, parser and mailbox, for answers with any status text and any header lines: however the network cuts the stream and however many looks come in between, who waits for an answer no other one agrees with in command and number, and finds no older reply that would do, gets its body |
| `AnswerPipeline.AnswersArrive` | jni/clientlink.c:614-643 | Whatever pieces the stream comes in, and whatever else stands in their heads, the mailbox is given every answer once, in order, with its command, number and body, and no message is too large for the parser's buffers |
| `AnswerPipeline.PlainIsTransmittable` | jni/httpAPI.c:622-633 | What that asks of an answer holds of the program's own answers whenever the command has less than 32 characters and no colon, the body stays 160 bytes below the limits of scanner and buffer, and the buffer has 512 bytes or more |
| `AnswerPipeline.WaiterGetsReply` | jni/netglobal.c:274-337 | A waiter gets the one reply that answers, whatever else comes in before and after it |
| `AnswerPipeline.AnswerIsMessage` | jni/httpAPI.c:67-109 | The framer takes a printed answer for exactly one message: its Content-Length line is found and read |
| `AnswerPipeline.LengthIsRead` | jni/httpAPI.c:67-109 | The length of the body is read from the first line with Content-Length:, white space in front of the number skipped; a negative one counts as none |
| `MailboxSpec.ExpiredExactly` | jni/netglobal.c:224-267 | By position, so for equal replies too: exactly the entries that are 3000 ms old when the clock is read for them are removed, in their order |
| `MailboxSpec.KeptExactly` | jni/netglobal.c:224-267 | By position: exactly the other entries stay, in their order |
| `MailboxSpec.NeverBroken` | jni/netglobal.c:238-339 | In a run in which nobody waits for the empty command the list head is never touched |
| `MailboxSpec.BrokenOnlyForEmptyCommand` | jni/netglobal.c:290-334 | A look takes the list head for a reply if and only if the command is empty, the list is not, and no reply in it answers |
| `Mailbox.ResponseList.WaitForResponse` | jni/netglobal.c:238-339 | Eviction and then looks between arrivals: the reply returned and the list left are those of the steps |
| `Mailbox.ResponseList.EvictOld` | jni/netglobal.c:248-267 | Deleting while walking leaves a valid ring of exactly the entries that are not too old, in order |
| `Mailbox.ResponseList.TryTake` | jni/netglobal.c:284-336 | One look takes the first entry that answers off the ring, or nothing |
| `Mailbox.ResponseList.ListAdd` | jni/list.h:104-127 | The ring stays doubly linked with the new entry in front; the counter goes up |
| `Mailbox.ResponseList.ListDel` | jni/list.h:148-166 | The ring stays doubly linked without that entry; the counter goes down |
| `Gb2312Spec.GbRoundTrip` | jni/gb2312.c:2125-2202 | For every text of ASCII bytes and assigned pairs, converting to UTF-8 and back gives the text, whatever lies behind it in memory |
| `Gb2312Spec.Utf8RoundTrip` | jni/gb2312.c:2125-2202 | For every text of ASCII bytes and three-byte forms of mapped code points, converting to GB2312 and back gives the text |
| `Gb2312Spec.CodeOfCell` | jni/gb2312.c:2043-2067 | A code point has a cell if and only if an assigned cell has that code point, and the two agree |
| `Gb2312Spec.ThreeIsUtf8` | jni/gb2312.c:2109-2123 | The three bytes written are what mxml_add_char writes exactly from U+0800 on, and a sequence of the grammar in RFC 3629, section 4, exactly if moreover the code point is no surrogate |
| `Gb2312Spec.OverlongIsRefused` | jni/gb2312.c:2109-2123 | Below U+0800 mxml_string_getc refuses the three bytes, as the grammar in RFC 3629, section 4, does |
| `Gb2312Spec.ThreeAndBack` | jni/gb2312.c:2078-2086 | The program's own reader takes back all 16-bit code points |
| `Gb2312Spec.UnassignedPair` | jni/gb2312.c:2088-2107 | Two bytes of no assigned cell, and only these, become EF BF BF |
| `Gb2312Spec.UnmappedPair` | jni/gb2312.c:2043-2067 | A code point without a cell becomes two bytes that depend only on what was converted before; twice in a row it never becomes the same ones |
| `Gb2312.UnicodeToGb2312` | jni/gb2312.c:2043-2067 | The binary search through the first table succeeds if and only if the code point is mapped, and gives its cell |
| `Gb2312.Gb2312ToUtf8` | jni/gb2312.c:2125-2165 | The output array holds the conversion and a NUL |
| `Gb2312.Utf8ToGb2312` | jni/gb2312.c:2167-2202 | The output array holds the conversion and a NUL |
## Left out

Deliberately weaker than the source, or under a condition the source does not check:

- XmlRoundTrip.SaveThenLoad: names with markup characters, quotes or bytes outside printable ASCII, which the printer does not escape in a start tag, are excluded.
- XmlSyntax.StartTagIsRead: the tag name and the attribute names are plain; values do not hold U+FEFF; a bare value starts with a plain character.
- XmlMargin.SavedAtMargin: trees whose texts need references or hold line ends, and quoted names, are excluded; for references XmlMargin.CountedExactly says what the column then is not.
- HttpMessageSpec.PostScannedExactly: no question mark in the command and the header lines, and no line end in the body.
- HttpMessageSpec.GetScannedExactly: a query without any equals sign, after which the scanner goes on to the next one in the message, is not decided.
- XmlForest.Add: a node added next to itself, a node that is parent or above it, and values of `where` other than before and after are excluded.
- XmlWalk.FindElement: every element has a name.
- XmlLoaded.LoadSaveLoad: loaded trees with texts or values that are no encoding of readable characters are excluded; these come from references beyond 0x1FFFFF and from unquoted values whose first character is not ASCII, of which the parser stores one byte.
- XmlIndexBuild.IndexNew: without name and attribute the top node, which the index then contains, has to be an element.
- XmlLoading.LoadData: for a NULL top node, the only one the client passes; an element is made when its attributes have been read, and what was read before an error is not deleted, which the result does not show.
- XmlSaver.WriteNodes: the column is unbounded.
- XmlEntity.EntityValue: the table is a parameter that is sorted; the literal table is not copied.
- XmlAttr.Attributes.Set: the strings are values; that the source copies and frees them is not modelled.
- Packetiser.Sender.SendFrame: every send succeeds.
- Receiver.VideoReceiver.OnPacket: only packets that fit the packet buffer; a packet without payload, which the TCP branch drops, is taken like any other.
- FrameQueue.PlayList.InputTail: data longer than the staging buffer, and headers that announce more than it, are excluded.
- FramingSocket.ReceivePackage: only if no peek is written behind the buffer: nMax + 257 bytes, or nMax + 1 bytes and a next head or a rest of the stream that leaves room for it.
- FramingSocket.ReceiveMessages: a call that returns 0 or -2 does not set errno, and with errno 0 the source reads on, as here; errors of select and recv, after which it waits for a new connection, are not modelled.
- Mailbox.ResponseList.WaitForResponse: after the list head has been taken for a reply nothing more is stated; msg_list_num, which is only ever decremented, and the sharing of glistResponseCount between lists are not modelled.
- Gb2312.UnicodeToGb2312: the tables are parameters: assigned cells with distinct codes, a sorted and complete backward list.
- Gb2312.Gb2312ToUtf8: the output is long enough for the conversion and for what memset clears, and one byte behind the text may be read.
- Gb2312.Utf8ToGb2312: the output is long enough, and two bytes behind the text may be read.
- SipMessages.SipCmd.Parse: only messages that keep the sizes of the fixed buffers; a status line has its two blanks.
- SipMessages.MakeRequest: only request lines of less than 128 bytes; NULL strings are printed like empty ones.
- SipMessages.AnswerRequest: the reason texts are a parameter.
- HttpMessages.MakeHttp: only texts of less than 512 bytes; NULL strings, of which the source takes the length for POST and answers, are excluded.
- HttpMessages.HttpObject.ParseHttp: a message that passes the scan has to have an empty line and to keep the sizes of the fixed buffers; a GET request needs a question mark in its target and an equals sign in every parameter, and an answer the line that names its command.
- AnswerPipeline.WaiterGetsAnswer: messages other than answers, which clientlinkProcessRecvData handles by their commands, are not put into the mailbox here.

Not part of this model:

- Sockets, select, threads, reconnects, timeouts, errors of send and recv, a peer that closes the connection (readHeadFlag then ends with 1053).
- JNI, bitmaps, ffmpeg and mp4v2, g711.h, the request functions of st_cuapi.c and the CreatePack functions of netglobal.c.
- The thread that receives audio, whose start is commented out (jni/AudioInstance.c:357), and st_getKeyFramefromList.
- RTP header variants: the header is the 16 bytes the sender writes.
- UTF-16 input (a byte 0xFE or 0xFF ends the text), file and descriptor sources, SAX callbacks, integer, real and custom nodes, the whitespace callback of the printer, entity callbacks.
- Failing allocations, and reads and writes past fixed C buffers: sizes are stated as preconditions.
- Overflow of atoi, of the printer's column and of reference counts.
- st_http_addParam, st_http_parseHttpParam, st_sip_parseFrom, and the splice functions of list.h, which nothing modelled here uses.
