# XML and JSON readers over a `Node` tree, in Dafny

The program (`src/converter/Main1.java`) reads a text buffer as loose XML or as
a subset of JSON and builds the same kind of tree from either:

- A `Node` has a name, a value, an insertion-ordered attribute map, a children list and a parent link.
- `XmlReader` turns each opening tag into a child node. A tag's `name="value"` pairs become its attributes. An element closed by `>` and left without children takes the raw text up to the first `</name>` as its value; one closed by `/>` keeps no value.
- `JsonReader` turns each object member into a child node named after the member. A scalar member's value is its text: a string without escape processing, a number as written, or `null`.
- A nested object is read into its node and then rewritten before the node is attached. Either it is an XML-style record (`#name` for the text, `@attr` for attributes), or children whose names are not XML identifiers are dropped or renamed.

The model has seven modules, one file each:

| file | module | what it holds |
|---|---|---|
| `wrappers.dfy` | `Wrappers` | `Option` for Java `null`; `Result` with the three exception messages as `Failure` tags |
| `ordered_maps.dfy` | `OrderedMaps` | `LinkedHashMap` as a sequence of entries: `Put`, `PutAll` and their laws |
| `text.dfy` | `Text` | the regex character classes, greedy and lazy scans, the `", "` join of `getPath` |
| `tree.dfy` | `Tree` | the node arena: the pure `Store` with one function per `Node` operation, and the `Arena` class, whose methods perform them in place |
| `xml_reader.dfy` | `XmlReader` | the three XML patterns as searches, `readTags` as a function, and the in-place loop proved equal to it |
| `json_rewrite.dfy` | `JsonRewrite` | `isValidXmlAttribute`, `isValidXmlIdentifier`, `isXmlAttributes`, and the two rewrite loops as functions and as in-place methods |
| `json_reader.dfy` | `JsonReader` | the JSON patterns as anchored scanners, `readObject` as mutually recursive functions, and the in-place reader proved equal to them |

Nodes live in an arena: a map from ids to `NodeRec` values, with links held as ids. Ids are handed out in creation order. Every link the readers make goes from an older parent to a younger child (`Tree.Wf`). This makes every parent chain finite, and lets a rewrite of a node be stated as touching only ids at or above it.

Each reader is written twice:

- as a function on `Store` values, which the lemmas are about;
- as methods on an `Arena` whose `ensures` equate the new arena state with that function of the old state.

A thrown `RuntimeException` is an `Err` carrying the message's tag.

## Model

| member | source | states |
|---|---|---|
| Tree.IndexOfId | src/converter/Main1.java:66 | `indexOf`: the position of the first occurrence of the id, or -1 exactly when it is absent |
| Tree.WithNode | src/converter/Main1.java:18-29 | a new node gets the next unused id, has the given name and no value, attributes, children or parent, and no other node changes |
| Tree.WithChild | src/converter/Main1.java:59-63 | `addChild(c)`: `c` becomes the last child, earlier children keep their order, `c`'s parent becomes the receiver, nothing else changes |
| Tree.WithoutChild | src/converter/Main1.java:65-72 | `removeChild(c)`: null and no change exactly when `c` is not a child; otherwise the first occurrence alone is removed, `c`'s parent is cleared, `c` is returned and nothing else changes |
| Tree.AddChildPath | src/converter/Main1.java:59-94 | after `addChild`, a named child's path is its parent's path, `", "` and its name, or just its name under an unnamed chain |
| Tree.PathUnchanged | src/converter/Main1.java:78-94 | a path depends only on the names and parents of the node and its ancestors |
| Tree.NamedChildPath | src/converter/Main1.java:78-94 | a named node's path is its parent's path followed by its own name |
| Tree.RemoveAfterAdd | src/converter/Main1.java:59-72 | removing a child that was just added restores the children list and clears the child's parent |
| Tree.ChildrenMapKeys | src/converter/Main1.java:100-106 | the keys of `getChildrenMap` are distinct and are exactly the children's names, and each entry maps a name to a child with that name |
| Tree.ChildrenMapLastWins | src/converter/Main1.java:100-106 | each name maps to the last child with that name |
| Tree.ChildrenMapOrder | src/converter/Main1.java:100-106 | the keys appear in the order of the first child with each name |
| Tree.ChildrenMapUnchanged | src/converter/Main1.java:100-106 | the map depends only on the children's names, so it is a snapshot that later edits of other fields leave alone |
| Tree.Arena.NewNode | src/converter/Main1.java:18-29 | `new Node(name)` on the arena equals `WithNode` of the old state |
| Tree.Arena.AddChild | src/converter/Main1.java:59-63 | `addChild(Node)` on the arena equals `WithChild` of the old state |
| Tree.Arena.AddChildNamed | src/converter/Main1.java:55-57 | `addChild(String)` creates the node and then attaches it as the last child |
| Tree.Arena.RemoveChild | src/converter/Main1.java:65-72 | `removeChild` on the arena equals `WithoutChild`, result included |
| Tree.Arena.SetName | src/converter/Main1.java:35-37 | only the name of that node changes |
| Tree.Arena.SetValue | src/converter/Main1.java:51-53 | only the value of that node changes |
| Tree.Arena.SetAttribute | src/converter/Main1.java:43-45 | the node's attribute map becomes `Put` of the key and value, and nothing else changes |
| Tree.Arena.HasChildren | src/converter/Main1.java:96-98 | true exactly when the children list is not empty |
| Tree.Arena.GetPath | src/converter/Main1.java:78-94 | the `while` loop with `insert(0, …)` returns the names on the parent chain, root-most first, joined with `", "` |
| Tree.Arena.GetChildrenMap | src/converter/Main1.java:100-106 | the loop of `put`s returns the children map, whose properties are the `ChildrenMap` lemmas |
| OrderedMaps.Put | src/converter/Main1.java:43-45 | `put` makes the key map to the value and leaves every other key's value alone; a new key goes last, an old one keeps its place; distinct keys stay distinct |
| OrderedMaps.PutAllGet | src/converter/Main1.java:161-164 | after a series of `put`s each key holds the value of its last pair, and untouched keys keep their value |
| OrderedMaps.PutAllKeys | src/converter/Main1.java:100-106 | the keys after a series of `put`s are the old keys and the new ones, nothing else |
| OrderedMaps.PutAllEntries | src/converter/Main1.java:100-106 | every entry after a series of `put`s is an old entry or one of the pairs |
| OrderedMaps.PutAllDistinct | src/converter/Main1.java:100-106 | a series of `put`s keeps keys distinct |
| OrderedMaps.PutAllCons | src/converter/Main1.java:262-265 | putting a pair and then the rest equals putting them all in order |
| OrderedMaps.FromPairsOrder | src/converter/Main1.java:100-106 | a map built from pairs lists its keys in the order of their first occurrence |
| Text.SkipWhile | src/converter/Main1.java:140-142 | a greedy run ends inside the text, and at a character outside the class unless it reaches the end |
| Text.SkipWhileAll | src/converter/Main1.java:140-142 | every character a greedy run skips is in the class |
| Text.SkipWhileExact | src/converter/Main1.java:140-142 | any position reached through the class and stopped by a character outside it is where the greedy run ends |
| Text.FindChar | src/converter/Main1.java:142 | the lazy `.*?"`: the first quote at or after the position, or none when there is no quote |
| Text.JoinSnoc | src/converter/Main1.java:84-89 | appending a name appends `", "` and the name, or just the name when nothing precedes it |
| XmlReader.IsXmlMeaning | src/converter/Main1.java:192-198 | the sniff holds exactly when the text from the cursor is spaces, `<`, spaces, a lower-case `[a-z_]` and a word character |
| XmlReader.AttrHead | src/converter/Main1.java:141 | `[a-z_]\w+\s*=\s*"` at a position: the name takes at least two characters and the opening quote lies inside the text |
| XmlReader.AttrHeadMeaning | src/converter/Main1.java:141-142 | the head found ends its name at `ne` and its opening quote at `o` exactly when the text there is a tag name up to `ne`, spaces, `=`, spaces and `"` just before `o`: that is the only way the pattern can match, so there is no other head, and none is found exactly when it cannot match |
| XmlReader.AttrHeadExact | src/converter/Main1.java:141-142 | any name, spaces, `=`, spaces and quote at a position is the head found there |
| XmlReader.Star | src/converter/Main1.java:141 | every match of the greedy `(attribute)*\s*(>\|/>)` from a position is one of two kinds: no iteration ran, group 2 keeps its old value and `\s*(>\|/>)` follows the position directly; or group 2 is the span of an iteration (an attribute head and a closing quote) at or after the position, followed directly by `\s*(>\|/>)`, so it is the last iteration |
| XmlReader.QuotesClose | src/converter/Main1.java:141 | closing an iteration at a quote and matching the rest of the pattern from there is a match from the iteration's start, with group 2 that iteration or a later one |
| XmlReader.Quotes | src/converter/Main1.java:141 | every match the lazy value of an iteration leads to is a match of the rest of the pattern from the iteration's start, of the two kinds `Star` states |
| XmlReader.Stop | src/converter/Main1.java:141 | `\s*(>\|/>)`: the match ends after the position, with group 2 carried over |
| XmlReader.StopMeaning | src/converter/Main1.java:141 | the end found and the closing form are exactly spaces followed by `>`, or by `/>` when self-closing: the only way the pattern can match, and none is found exactly when it cannot |
| XmlReader.NameTry | src/converter/Main1.java:141 | the tag name is a prefix of at least two characters of the greedy `\w+` run, and group 2 when present is an iteration's span |
| XmlReader.NameTail | src/converter/Main1.java:141 | what follows a name ends after it, and group 2 when present is an iteration's span; spaces after the name are taken only after the whole run |
| XmlReader.NameTryHit | src/converter/Main1.java:141 | when the rest of the tag matches after the name ending at the current end, that name is chosen with that tail |
| XmlReader.NameTryMiss | src/converter/Main1.java:141 | when it does not, `\w+` gives back one character and the search goes on |
| XmlReader.NameTryChosen | src/converter/Main1.java:141 | the name chosen ends at a point after which the rest of the tag matches, and the tag match carries that tail's group 2, end and closing form |
| XmlReader.NameTryLongest | src/converter/Main1.java:141 | names are tried longest first: whenever the rest matches after some name end, a name is chosen and it is at least that long |
| XmlReader.NameTryTagName | src/converter/Main1.java:141 | the name chosen in a run that starts with `[a-z_]` is a tag name |
| XmlReader.TagAt | src/converter/Main1.java:141 | an opening tag anchored at a `<`: its name is a tag name, and the match and group 2 lie inside the text |
| XmlReader.TagAtName | src/converter/Main1.java:141 | an opening tag found at a position is `<`, spaces, then the longest-first name search over the word run that follows |
| XmlReader.TagAtTail | src/converter/Main1.java:141 | an opening tag is `<`, spaces, the name as a prefix of the word run, then a match of `(attribute)*\s*(>\|/>)` whose group 2 is the last iteration, from just after the name (or after the spaces that follow it, when the name is the whole run) |
| XmlReader.TagAtLongest | src/converter/Main1.java:141 | the name of an opening tag is the longest prefix of the word run after which the rest of the tag matches |
| XmlReader.FindTagLeftmost | src/converter/Main1.java:157 | `find(i)` returns the opening tag at the leftmost `<` at or after `i` where one matches, and none when no position matches |
| XmlReader.AttrAt | src/converter/Main1.java:142 | an attribute anchored at a position ends after it, just after a quote; its name is a tag name and its value holds no quote |
| XmlReader.AttrAtMeaning | src/converter/Main1.java:142 | an attribute is found at a position with a name, value and end exactly when an attribute head is there, the name is the head's name, and the value runs from the opening quote to the first quote after it, the match ending just after that quote |
| XmlReader.NextAttr | src/converter/Main1.java:162 | the next attribute ends after the cursor, just after a quote; its name is a tag name and its value holds no quote |
| XmlReader.NoAttrInMeaning | src/converter/Main1.java:162 | no attribute in a range means that no position in the range anchors one |
| XmlReader.NextAttrLeftmost | src/converter/Main1.java:162 | `find()` returns the attribute at the first position at or after the cursor that anchors one, and none exactly when no position does |
| XmlReader.AttributePairs | src/converter/Main1.java:160-165 | every pair the attribute loop sets names a tag name and has a non-null value with no quote in it |
| XmlReader.CloserAt | src/converter/Main1.java:169-171 | `<\s*/name\s*>` anchored at a position ends after it |
| XmlReader.CloserAtMeaning | src/converter/Main1.java:169-171 | a closing tag ends at `e` exactly when the text from the position is `<`, spaces, `/`, the element's name character for character (case-sensitive), spaces and `>` ending at `e`; there is no other end |
| XmlReader.CloserAtExact | src/converter/Main1.java:169-171 | any such closing tag is the one found |
| XmlReader.FindCloserLeftmost | src/converter/Main1.java:169-177 | the first closing tag at or after the cursor, and none exactly when no position holds one |
| XmlReader.WithAttributes | src/converter/Main1.java:160-165 | the pairs are put into the element's attributes in order, and nothing else changes |
| XmlReader.Begin | src/converter/Main1.java:158-166 | the tag becomes a new last child of the parent, named after group 1, with only the pairs of group 2 as attributes; nothing else changes |
| XmlReader.NewChildGrown | src/converter/Main1.java:158-166 | creating, attaching and filling in the element changes only the parent's children, by appending the new id |
| XmlReader.ReadTags | src/converter/Main1.java:150-190 | on success the cursor never moves back, no opening tag remains after it, only the parent's children change (by appending new elements) and every new node is an element; the only error is "Enclosing tag expected." |
| XmlReader.ReadTagsAddsChildren | src/converter/Main1.java:157-158 | the parent gains children exactly when an opening tag is found |
| XmlReader.ReadContent | src/converter/Main1.java:168-186 | after a `>` the cursor moves forward, the element changes only in its children and value, and never has both; the only error is "Enclosing tag expected."; where the cursor ends is stated by `NestedContent`, `ContentValue` and `LeafStep` |
| XmlReader.NestedContent | src/converter/Main1.java:168-179 | content that sniffs as markup is read as nested tags, which take every opening tag to the end of the text (later siblings included); reading then fails exactly when that fails or no `</name>` follows the nested cursor, and otherwise resumes after the first such closing tag with the element as the nested reading left it |
| XmlReader.ContentValue | src/converter/Main1.java:173-185 | an element left without children has as its value the raw text from the end of its opening tag to the first `</name>`, and reading resumes after that tag |
| XmlReader.LeafContentFails | src/converter/Main1.java:177-179 | content that does not sniff as markup fails exactly when no `</name>` follows |
| XmlReader.SelfClosingStep | src/converter/Main1.java:157-168 | a `/>` tag adds an element with its attributes and no value or children, and reading goes on after the tag |
| XmlReader.LeafStep | src/converter/Main1.java:168-185 | a `>` tag with plain content adds an element valued with the text up to `</name>` and reading goes on after that; without a closing tag reading fails |
| XmlReader.TagAttributes | src/converter/Main1.java:160-165 | for each attribute name of a tag the last pair wins |
| XmlReader.ReadXml | src/converter/Main1.java:144-148 | `read` builds a well-formed tree under an unnamed root with id 0, or fails with "Enclosing tag expected." |
| XmlReader.ReadXmlShape | src/converter/Main1.java:144-148 | the root keeps no value, attribute or parent, and every other node is a named, attached element |
| XmlReader.ReadTagsInPlace | src/converter/Main1.java:150-190 | the `while (tagMatcher.find(i))` loop on the arena ends in the state and cursor `ReadTags` gives, or with its error |
| XmlReader.BeginInPlace | src/converter/Main1.java:158-166 | the new element and its attributes on the arena equal `Begin` |
| XmlReader.SetAttributesInPlace | src/converter/Main1.java:161-164 | the `attrMatcher.find()` loop puts the pairs of `AttributePairs` in order |
| XmlReader.ContentInPlace | src/converter/Main1.java:168-186 | the content step on the arena equals `ReadContent` |
| XmlReader.Read | src/converter/Main1.java:144-148 | `read` on a fresh arena equals `ReadXml` |
| JsonRewrite.ValidAttributeMeaning | src/converter/Main1.java:333-335 | a valid attribute name is `#` or `@`, a letter or `_`, then letters, digits, `_` and `.` |
| JsonRewrite.ValidIdentifierMeaning | src/converter/Main1.java:337-339 | a valid identifier is a letter or `_`, then letters, digits, `_` and `.` |
| JsonRewrite.AttributeTailIsIdentifier | src/converter/Main1.java:276 | removing the marker of a valid attribute name leaves a valid identifier |
| JsonRewrite.EntriesAreAttributesMeaning | src/converter/Main1.java:346-353 | the entry loop accepts exactly when every key is a valid attribute name, so the `charAt(1) == '@'` test never rejects |
| JsonRewrite.IsXmlAttributesMeaning | src/converter/Main1.java:341-355 | record style holds exactly when the children map has the key `"#" + name` and every key is a valid attribute name |
| JsonRewrite.AddAll | src/converter/Main1.java:256-258 | adding the ids in turn appends them all, in order, to the node's children, and touches nothing older than the node |
| JsonRewrite.RecordStep | src/converter/Main1.java:251-266 | one entry: the child is taken out once; an `@` child becomes an attribute named after it without its marker; a `#` leaf gives its value; a `#` child with children passes up its deduplicated children |
| JsonRewrite.RecordRemoval | src/converter/Main1.java:255-264 | `removeChild` of an entry's child removes one copy, keeps the other children and does not change what the child passes up |
| JsonRewrite.RemovedOnce | src/converter/Main1.java:65-72 | removing a child takes exactly one copy of it out of the children |
| JsonRewrite.RecordStepOn | src/converter/Main1.java:253-265 | once the child is removed, the branch on `#` or `@` sets the value, sets the attribute or appends the grandchildren |
| JsonRewrite.SplicedInto | src/converter/Main1.java:256-258 | the values of the child's children map are appended to the node, and nothing older than the node changes |
| JsonRewrite.SplicedYounger | src/converter/Main1.java:256-258 | the children passed up are existing nodes younger than the node, so attaching them keeps the arena well-formed |
| JsonRewrite.LastTextLeaf | src/converter/Main1.java:258-261 | the position of the last `#` leaf entry, or -1 when there is none |
| JsonRewrite.RecordStyle | src/converter/Main1.java:249-268 | the attributes become the old ones with every `@k` entry put as `k` with its child's value, in map order; the value is that of the last `#` leaf, or unchanged when there is none; every entry's child leaves the children once, and the grandchildren of `#` entries with children join them |
| JsonRewrite.KeptIsIdentifier | src/converter/Main1.java:272-280 | a key the fallback does not drop leaves its child named by a valid identifier |
| JsonRewrite.FallbackStep | src/converter/Main1.java:271-281 | one entry: a dropped key's child is taken out once; a kept attribute-like key's child loses its marker; other children and names stay |
| JsonRewrite.FallbackLoop | src/converter/Main1.java:271-281 | over the snapshot entries: exactly the dropped entries' children leave the children, each once; every entry's child ends with its new name; other nodes keep their names |
| JsonRewrite.Fallback | src/converter/Main1.java:269-285 | the loop above over the children map, then an empty value exactly when no children remain; attributes are kept |
| JsonRewrite.FallbackKeepsIdentifiers | src/converter/Main1.java:271-281 | after the fallback every entry that was not dropped names its child by a valid identifier |
| JsonRewrite.Reconcile | src/converter/Main1.java:249-285 | the rewrite changes the node's children, value and attributes and the names of younger nodes, never anything older or the node's own name and parent |
| JsonRewrite.CheckXmlAttributes | src/converter/Main1.java:341-355 | `isXmlAttributes` on the arena, with its early returns, equals `IsXmlAttributes` |
| JsonRewrite.CheckEntries | src/converter/Main1.java:346-353 | the entry loop with its early returns equals `EntriesAreAttributes` |
| JsonRewrite.AddAllInPlace | src/converter/Main1.java:256-258 | the `addChild` loop on the arena equals `AddAll` |
| JsonRewrite.RecordStepInPlace | src/converter/Main1.java:252-266 | one record-style iteration on the arena equals `RecordStep` |
| JsonRewrite.RecordStepOnInPlace | src/converter/Main1.java:253-265 | the branch after the removal on the arena equals `RecordStepOn` |
| JsonRewrite.SplicedInPlace | src/converter/Main1.java:256-258 | `getChildrenMap().values()` and the `addChild` loop equal `SplicedInto` |
| JsonRewrite.RecordStyleInPlace | src/converter/Main1.java:250-267 | the record-style loop on the arena equals `RecordStyle` |
| JsonRewrite.FallbackStepInPlace | src/converter/Main1.java:272-280 | one fallback iteration on the arena equals `FallbackStep` |
| JsonRewrite.FallbackLoopInPlace | src/converter/Main1.java:271-281 | the fallback loop on the arena equals `FallbackLoop` |
| JsonRewrite.FallbackInPlace | src/converter/Main1.java:269-285 | the fallback branch on the arena equals `Fallback` |
| JsonRewrite.ReconcileInPlace | src/converter/Main1.java:249-285 | the reconciliation block on the arena equals `Reconcile` |
| JsonReader.OpenObject | src/converter/Main1.java:218-225 | an object opens exactly when the first non-space character is `{`, and the cursor then moves past it and the spaces after it |
| JsonReader.IsJsonMeaning | src/converter/Main1.java:321-331 | the sniff holds exactly when the text from the cursor is spaces, `{`, spaces and then a quote or `}` |
| JsonReader.NameEnd | src/converter/Main1.java:205 | the lazy `(.*?)"\s*:` ends at the first quote that a colon follows, and none exactly when no quote is followed by a colon |
| JsonReader.MemberName | src/converter/Main1.java:205 | a member name match moves the cursor forward |
| JsonReader.MemberNameFound | src/converter/Main1.java:243-245 | a member name is found exactly when a quote opens and some later quote is followed by a colon |
| JsonReader.MemberNameMeaning | src/converter/Main1.java:243-245 | the name read is the text after the opening quote up to the first quote that a colon follows, and the cursor passes the colon and the spaces after it |
| JsonReader.StringAt | src/converter/Main1.java:206 | a string value is the text between a quote and the next quote, with no quote inside, unprocessed |
| JsonReader.NumberAt | src/converter/Main1.java:206 | a number is the longest run of digits with at most one dot, starting with a digit, and it is found exactly when a digit comes first |
| JsonReader.OptComma | src/converter/Main1.java:206 | the optional comma is taken exactly when present |
| JsonReader.ScanValue | src/converter/Main1.java:206 | a scanned value moves the cursor forward; which alternative it takes is stated by `ScanString`, `ScanNumber`, `ScanNull` and `ScanValueRejects` |
| JsonReader.ScanValueRejects | src/converter/Main1.java:288-291 | a value is rejected exactly when what follows the spaces is not a closed string, does not start with a digit and is not `null`, so `true`, `-1` and `[` fail |
| JsonReader.ScanString | src/converter/Main1.java:293-294 | a value that starts with a closed quote is the string of everything up to the next quote |
| JsonReader.ScanNumber | src/converter/Main1.java:296-297 | a value that starts with a digit is always a number, whose text is the longest `\d+\.?\d*` there |
| JsonReader.ScanNull | src/converter/Main1.java:299-300 | a value `null` is the null scalar, and the match ends after it and an optional comma |
| JsonReader.CloseObject | src/converter/Main1.java:313-318 | the object closes exactly when the first non-space character is `}`, and the cursor moves past it, the spaces and an optional comma |
| JsonReader.ReadObject | src/converter/Main1.java:217-319 | when no object opens, nothing changes and the cursor stays; on success the cursor never moves back, only the parent's children change and new children are new nodes; the error is never "Enclosing tag expected." |
| JsonReader.Members | src/converter/Main1.java:243-318 | the member loop appends new children under the parent and changes nothing else that existed before |
| JsonReader.MemberValue | src/converter/Main1.java:245-307 | reading a member's value changes no other existing node, and the member keeps its name and parent |
| JsonReader.ScalarMember | src/converter/Main1.java:287-310 | a scalar member becomes a new last child named after it, holding the scalar's text, with no attributes or children, and reading goes on after the value; otherwise it is "Attribute value expected." |
| JsonReader.NestedMember | src/converter/Main1.java:246-310 | a nested object is read into a new node and reconciled, then attached as the last child, still named after the member |
| JsonReader.MembersEnd | src/converter/Main1.java:313-318 | without another member, reading fails exactly when no `}` follows, that failure is "Object end expected.", and success changes nothing |
| JsonReader.ReadJson | src/converter/Main1.java:211-215 | `read` gives a well-formed tree whose root, id 0, has no name, value, attributes or parent, so it is never reconciled; the errors are "Attribute value expected." and "Object end expected." |
| JsonReader.RootChildren | src/converter/Main1.java:211-215 | after `read` the root's children are exactly one node per top-level member name, in the order read, each named by that name as read and with the root as its parent, so none is dropped or renamed; the root keeps no name, value, attributes or parent: it is never reconciled |
| JsonReader.TopLevelNamesFirst | src/converter/Main1.java:211-245 | the top-level names start with the first member name after the `{` |
| JsonReader.MembersChildren | src/converter/Main1.java:243-311 | the member loop appends to its node exactly one child per member name it reads, in order, each named by the name as read and with the node as its parent |
| JsonReader.ReadObjectInPlace | src/converter/Main1.java:217-319 | the `while (attributeMatcher.find())` loop on the arena ends in the state and cursor `ReadObject` gives, or with its error |
| JsonReader.MemberValueInPlace | src/converter/Main1.java:245-307 | the value step on the arena equals `MemberValue` |
| JsonReader.Read | src/converter/Main1.java:211-215 | `read` on a fresh arena equals `ReadJson` |

## Left out

- `Main1.main` (src/converter/Main1.java:358-367) reads a file and prints; file I/O and output are not modelled. The two sniffs it dispatches on, `IsXml` and `IsJson`, are.
- `Node.toString` (src/converter/Main1.java:108-136) is output formatting and is not modelled.
- `getName`, `getParent`, `getValue` and `setParent` are field reads and writes. They appear inside the operations that use them.
- Java strings are sequences of UTF-16 code units; here they are `seq<char>`. Only the ASCII classes `\s`, `\d` and `\w` matter, as `java.util.regex` defines them without the Unicode flag.
- XmlReader.Star and XmlReader.Quotes state soundness only: every match they return is one the pattern admits (`TailFrom`). That they miss no match when they return none is not stated. The name search on top of them is stated both ways relative to them (`NameTryChosen`, `NameTryLongest`).
- XmlReader.Quotes: the lazy order, closing the value at the first quote and moving to a later one only when the rest fails, is what its definition does; its contract states only that what it returns is a match (`TailFrom`).
- The regular expressions are not modelled by a general engine. Each pattern is a hand-written search that follows the backtracking order `java.util.regex` uses for that pattern: greedy runs, lazy `.*?`, and the last iteration kept by a repeated group.
- Tree.Arena.AddChild requires the child to be younger than the parent. The readers only ever attach a node they created after the parent, and the well-formedness that makes paths finite depends on it.
- `addChild` does not take the child out of a previous parent's list, as in the source. After a record-style splice, the removed `#` child still lists the grandchildren that moved to the node.
- The "Unknown attribute value." branch (src/converter/Main1.java:302-304) cannot be reached once the value pattern has matched: one of the three groups always takes part. `Scalar` has exactly those three cases.
- JsonRewrite.RecordStyle states the node's new children as a multiset: the old children with every entry's child taken out once, plus the grandchildren passed up. It does not state their order. Order is stated for `AddAll` and `SplicedInto`, and `RecordStepOn` states the children list exactly.
- JsonRewrite.FallbackLoop states the children left after the fallback as a multiset, without their order.
- Dereferences of `null` do not arise in the model: every id the rewrite follows is proved present. Java's `null` name of the root is written as `null` in `"#" + name`, as string concatenation does (`TextKey`).
