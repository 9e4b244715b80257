# Verified models of cel-cpp's in-memory algorithms

This project models five parts of cel-cpp, the C++ implementation of the Common Expression Language, and proves what
they promise. Where the C++ code updates state, so does the model: loops with invariants, classes whose methods change
fields, linked nodes on the heap. Each such method is proved against a specification function, and lemmas about the
function state the properties.

* **Signatures** (`TypeSpecs`, `SignatureText`, `Signature`, `SignatureRoundTrip`, `SignatureNames`, `SignatureCode`):
  the text form of types and overloads. Printing escapes names and nests lists in angle brackets; the parser scans for
  delimiters outside brackets and escapes and calls itself on the pieces. `SignatureCode` holds the loops,
  `SignatureRoundTrip` says what is read back and exactly when it is the same, `SignatureNames` what every name reads
  as.
* **Attribute matcher** (`PatternSets`, `AttributeMatcher`, `MatcherHistories`, `Attributes`): a mutable tree with parent
  pointers that indexes attribute patterns. A ghost map from paths to nodes says which nodes stand for which beginnings
  of stored patterns, and `AttributeMatcher.Valid` holds that the paths are exactly the beginnings of a pairwise disjoint
  set of patterns. Every operation is specified by what it does to that set, and matching by scanning it.
* **Source text** (`Utf8`, `Source`, `SourcePositions`, `SourceLines`): reading UTF-8 (section 3 of RFC 3629) into one of
  four storages, the table of lines, the table of wide code points, and the searches in them.
* **Trees without recursion** (`Exprs`, `AstTraverse`, `TraversalOrder`, `AstRewrite`, `RewriteLog`, `NavigableAst`,
  `NavigableLayout`, `NavigableRelations`, `TreePaths`, `ExprErase`, `ExprEraseTrees`, `ExprClone`, `Types`,
  `FormatTypeName`): traversals, rewriting, the navigable table, destruction through an intrusive list, copying and type
  formatting, each with an explicit stack or list in place of recursion. `RewriteLog` lets every rewriting visitor keep a
  log of its calls and says what the log of any of them is.
* **Declarations** (`Assignability`, `OverloadSignatures`, `Decl`): assignability of types, and the overload table of a
  function.

Some promises do not hold as they are documented. The code is modelled as it is, and each of these is stated exactly:

* `DescendantsPostorder` takes the span of the postorder list at the node's preorder index. It yields the node's
  descendants exactly when the node is the root (`PostorderSpanOnlyAtRoot`). They do form a run of that list, which ends
  at the node (`SubtreeInPostorder`).
* A map's children get their relation from the parity of their position. It is right exactly when the keys that are
  there stand at even places, which entries without a key or a value can upset (`RelationsAreRoles`,
  `ValueTakenForKey`); maps whose entries are complete are always right (`CompleteEntriesAreInStep`).
* `UpsertAttribute` does not count a fresh pattern. The counter is the number of stored patterns minus the number of such
  upserts since the last clearing, modulo the word size, and exact if and only if that number is a multiple of the word
  size (`MatcherHistories.Play`, `FirstUpsertIsMissed`).
* `GetAttributes` reserves as many places as the counter says. Once more patterns were missed than are stored the counter
  has wrapped around, and reserving throws: after upserting `a.b`, `a.c` and `a`, or after upserting a pattern and
  removing it. At sizes that a vector can hold it succeeds if and only if no more was missed than is stored
  (`PlayAndList`, `ListingFails`, `UpsertThenRemoveIsMissed`).
* `UpsertAttribute` can answer OK and leave part of the new pattern unmatched: exactly when its final wildcard meets
  concrete children and no stored pattern covers it (`UpsertCoversItsPattern`, `BlockedUpsertLeavesAGap`).
* `Attribute::Compare` calls two empty qualifiers equal, which `operator==` does not. They agree exactly on attributes
  without an empty qualifier (`CompareAgreesWithEquality`); `EmptyQualifierComparesEqual` shows one that differs.
* Overloads that do not overlap can both accept one call, although overlapping ones always do (`OverlapIsAmbiguous`).
  `SharedCalls` says when two overloads share a call, `DisjointOverloadsShareACall` when they do in spite of not
  overlapping, and `WrappersShareACall` shows two.
* Overloads with different argument types can have one signature, which the table by signature then keeps for the last
  one only. `SignaturesCollide` says exactly which, for all names; `NamedAfterInt` shows two.

## Model

| member | source | states |
|---|---|---|
| SignatureText.UnescapeInvertsEscape | common/signature.cc:42-63 | unescaping an escaped name gives the name back, with or without escaped dots |
| SignatureText.EscapedCharacters | common/signature.cc:42-63 | exactly these characters are escaped: backslash, parentheses, angle brackets, quote, comma, tilde, and the dot where asked |
| SignatureText.StrippedCharacters | common/signature.cc:262-283 | exactly blank, tab and line breaks are stripped |
| SignatureText.JoinInvertsSplit | common/signature.cc:359-445 | the stretches between top-level delimiters, joined again, are the scanned text; none is longer than it |
| SignatureText.SkipEscaped | common/signature.cc:359-445 | an escaped name changes neither nesting nor escape state and holds no top-level delimiter |
| SignatureText.StripEscaped | common/signature.cc:262-283 | stripping an escaped text takes out the whitespace in it and leaves the rest escaped, whatever follows |
| SignatureCode.AppendEscaped | common/signature.cc:42-63 | the loop appends the escaped text and keeps what was there |
| SignatureCode.AppendTypeSpecList | common/signature.cc:67-80 | appends the parameters in brackets, nothing for none, and fails exactly when one cannot be printed |
| SignatureCode.AppendTypeDesc | common/signature.cc:82-206 | appends the description of the type, and fails exactly when a part of it is an error, unspecified, or unset outside the slots of lists, maps and results |
| SignatureCode.AppendListType | common/signature.cc:82-206 | a list with its element, an unset one as `dyn` |
| SignatureCode.ListDesc | common/signature.cc:82-206 | `list<element>` |
| SignatureCode.AppendMapType | common/signature.cc:82-206 | a map with key and value, unset ones as `dyn` |
| SignatureCode.MapDesc | common/signature.cc:82-206 | `map<key,value>` |
| SignatureCode.AppendFunctionType | common/signature.cc:82-206 | a function type with its result first, an unset one as `dyn` |
| SignatureCode.FunctionDesc | common/signature.cc:82-206 | `function<result,argument,...>` |
| SignatureCode.MakeTypeSpecSignature | common/signature.cc:215-219 | the description alone, or an error for what cannot be printed |
| SignatureCode.MakeOverloadSignature | common/signature.cc:234-258 | prints receiver, escaped name and arguments; refuses a member without receiver |
| SignatureCode.StripUnescapedWhitespace | common/signature.cc:262-283 | the loop drops exactly the whitespace that no backslash precedes |
| SignatureCode.UnescapeText | common/signature.cc:333-357 | the loop drops exactly the backslashes that escape |
| SignatureCode.SplitTopLevel | common/signature.cc:359-445 | an error for unbalanced brackets, else the stretches between top-level delimiters |
| SignatureCode.FindTopLevelChar | common/signature.cc:359-445 | an error for unbalanced brackets, else the first or last top-level occurrence if any |
| SignatureCode.ParseTypeSignature | common/signature.cc:452-564 | the recursive parser with its scan loops is the parsing function; it ends because each piece is shorter |
| SignatureCode.CutType | common/signature.cc:452-498 | cuts a signature into its name and the stretches between its brackets, and refuses one with brackets that does not end in one |
| SignatureCode.ParseTypeSpec | common/signature.cc:629-632 | strips and parses |
| SignatureCode.ParseFunctionSignature | common/signature.cc:568-627 | the overload parser is the composition of stripping, cutting and parsing the parts |
| SignatureCode.CutOverload | common/signature.cc:568-600 | cuts an overload into receiver, name and arguments at the last top-level dot and the parentheses |
| SignatureRoundTrip.ParsePrinted | common/signature.cc:452-564 | what the parser answers on any printed type, computed on the type instead of the text |
| SignatureRoundTrip.TypeRoundTrip | common/signature.cc:629-632 | a printed type reads back as its normal form exactly when its names are non-empty, free of whitespace, unreserved and without ".." |
| SignatureRoundTrip.SignaturesIdentifyTypes | common/signature.cc:215-219 | any two printable types have one signature exactly when they have one outline, that is the same names and parts whatever kinds of types bear the names; readable ones then have one normal form |
| SignatureRoundTrip.DescTellsOutline | common/signature.cc:82-206 | types that print alike have one outline, by taking the text apart as the scanner does |
| SignatureRoundTrip.ParsedIsFixed | common/signature.cc:452-564 | whatever the recursive parser accepts prints, reads back as itself and is its own normal form |
| SignatureRoundTrip.AcceptedTypesReprint | common/signature.cc:629-632 | an accepted type can be printed, and parses to itself again exactly when no name holds whitespace |
| SignatureRoundTrip.StripOverload | common/signature.cc:568-575 | stripping a printed overload strips the names in it and nothing else |
| SignatureRoundTrip.OverloadRoundTrip | common/signature.cc:568-627 | a printed overload reads back with its name, member flag and normal argument types exactly when its names are readable |
| SignatureRoundTrip.AcceptedOverloadsReprint | common/signature.cc:568-627 | an accepted overload can be printed, and parses to itself again exactly when neither its name nor one in its arguments holds whitespace |
| SignatureRoundTrip.SignaturesIdentifyOverloads | common/signature.cc:234-258 | any two printable overloads have one signature exactly when they have one name, one flag and arguments of the same outlines (a single nameless argument looks like none); readable ones then have the same arguments up to normal form |
| SignatureRoundTrip.MemberIsDotted | common/signature.cc:234-258 | a member's signature is its receiver's, a dot, and that of the call without the receiver |
| SignatureNames.TextsRead | common/signature.cc:285-331 | every text reads as a type without parts exactly when it spells one of that type's keywords or protobuf names; without brackets as any type that is neither a parameter nor named by the text likewise |
| SignatureNames.NamesRead | common/signature.cc:285-331 | each keyword and each protobuf name, aliases included, reads as its type in the tables |
| SignatureNames.BuildsNamed | common/signature.cc:499-549 | without parameters the names in the tables, and no others, build types of the language |
| PatternSets.OverlapIsACommonMatch | base/attribute.h:1114-1133 | patterns overlap exactly when some attribute is fully matched by both |
| PatternSets.PartialMeansLonger | base/attribute.h:1114-1133 | PARTIAL is the answer exactly when the attribute is shorter and can be lengthened to a full match; with an empty qualifier in the pattern it cannot |
| PatternSets.NeverBoth | base/attribute_matcher.cc:40-78 | no node has both concrete children and a wildcard |
| PatternSets.LeavesAreStored | base/attribute_matcher.cc:298-343 | the leaves are exactly the stored patterns, and wildcard nodes are leaves |
| PatternSets.OverlapStaysInside | base/attribute_matcher.cc:171-194 | a stored pattern that overlaps the new one keeps the walk inside the index or stops it |
| PatternSets.StoppedUpserts | base/attribute_matcher.cc:209-232 | where the walk is stopped, upserting stores nothing |
| PatternSets.StuckMeansOverlap | base/attribute_matcher.cc:58-78 | where a child is refused, some stored pattern overlaps the new one |
| PatternSets.ProgressGoesOn | base/attribute_matcher.cc:58-78 | on a walk a fresh node makes every later node fresh |
| PatternSets.ProgressEnds | base/attribute_matcher.cc:171-194 | a finished walk ends at a fresh node exactly when no stored pattern overlaps the new one, and then indexes it |
| PatternSets.OnePlace | base/attribute_matcher.h:148-174 | the index leads along an attribute to one node at most |
| PatternSets.StepsFindFullMatches | base/attribute.h:1114-1133 | some stored pattern's IsMatch is FULL exactly when some prefix of the attribute reaches FULL in the tree |
| PatternSets.UpsertedStaysDisjoint | base/attribute_matcher.cc:209-232 | upserting keeps the stored patterns pairwise disjoint |
| PatternSets.UpsertLosesNothing | base/attribute_matcher.cc:209-232 | no attribute loses its full match to an upsert |
| PatternSets.UpsertCoversItsPattern | base/attribute_matcher.cc:209-232 | all that the upserted pattern matches is matched afterwards, exactly unless it was blocked at its wildcard and not covered |
| PatternSets.BlockedUpsertLeavesAGap | base/attribute_matcher.cc:209-232 | with `a.b` stored, upserting `a.*` changes nothing and leaves `a.c` unmatched |
| PatternSets.LeavesOfChild | base/attribute_matcher.cc:87-107 | cutting a child off moves its leaves out, and the numbers of leaves add up |
| PatternSets.BareGoes | base/attribute_matcher.cc:109-129 | a node with nothing left below it is no beginning of a stored pattern any more |
| PatternSets.BusyStays | base/attribute_matcher.cc:109-129 | pruning may stop at the first node that has something below it |
| AttributeMatchers.Node.Add | base/attribute_matcher.cc:40-78 | returns the child, making it if the node may have it; refuses and leaves the node as it was otherwise |
| AttributeMatchers.Node.RemoveChildren | base/attribute_matcher.cc:80-107 | cuts all that is below the node and returns how many patterns ended there |
| AttributeMatchers.Node.RemoveChildrenInternal | base/attribute_matcher.cc:87-107 | the same, counting the node itself when nothing is below it |
| AttributeMatchers.Node.Remove | base/attribute_matcher.cc:109-129 | takes the node off and prunes upward until the index holds the remaining patterns' beginnings only |
| AttributeMatchers.MatchStep | base/attribute_matcher.h:148-174 | a step by key if there are keys, else by wildcard, leads to the one place for the longer prefix, or there is none |
| AttributeMatchers.AttributeMatcher.ValidateAttribute | base/attribute_matcher.cc:149-169 | accepts exactly the patterns with a variable, no empty qualifier and a wildcard at most at the end |
| AttributeMatchers.AttributeMatcher.AddVariable | base/attribute_matcher.cc:354-359 | the node of the variable, made if no stored pattern has it |
| AttributeMatchers.AttributeMatcher.Descend | base/attribute_matcher.cc:171-194 | one turn of the loop: a child that carries the walk on, or a stop that changes nothing and cannot come after a fresh node |
| AttributeMatchers.AttributeMatcher.Walk | base/attribute_matcher.cc:171-194 | the shared loop of insert and upsert: stops where the index cannot be extended, changing nothing, or makes the way of the pattern |
| AttributeMatchers.AttributeMatcher.InsertAttribute | base/attribute_matcher.cc:171-194 | succeeds exactly when no attribute is fully matched by the new and a stored pattern; adds that pattern only; a failure changes nothing |
| AttributeMatchers.AttributeMatcher.UpsertAttribute | base/attribute_matcher.cc:209-232 | replaces what the pattern begins, or leaves all as it is; says when the counter is not moved |
| AttributeMatchers.AttributeMatcher.Settle | base/attribute_matcher.cc:209-232 | at the end of the walk: stores a fresh pattern uncounted, leaves a stored one, or puts the pattern in place of what it begins |
| AttributeMatchers.AttributeMatcher.RemoveAttribute | base/attribute_matcher.cc:247-283 | succeeds exactly when the pattern is stored, and removes it only |
| AttributeMatchers.AttributeMatcher.MatchVariable | base/attribute_matcher.h:337-346 | finds the node of the variable if some stored pattern has it |
| AttributeMatchers.AttributeMatcher.MatchAttribute | base/attribute_matcher.h:348-382 | FULL, PARTIAL or NONE as a stored pattern of the attribute's length matches, only a longer one's prefix does, or none |
| AttributeMatchers.AttributeMatcher.ClearAttributes | base/attribute_matcher.h:332-335 | forgets every pattern and the count |
| AttributeMatchers.AttributeMatcher.HasAttributes | base/attribute_matcher.h:394-396 | tells whether anything is stored |
| AttributeMatchers.AttributeMatcher.GetAttributes | base/attribute_matcher.cc:298-352 | fails, as std::vector::reserve does, exactly when the counter is more than a vector can hold; else lists every stored pattern once |
| AttributeMatchers.AttributeCollector.CollectVariable | base/attribute_matcher.cc:298-343 | appends the patterns of one variable once each |
| AttributeMatchers.AttributeCollector.CollectQualifier | base/attribute_matcher.cc:298-343 | appends the patterns that end at or below a node once each, and leaves the way to it as it was |
| AttributeMatchers.InsertThenRemove | base/attribute_matcher.cc:247-283 | removing what was just inserted succeeds and restores patterns, index and count |
| MatcherHistories.Perform | base/attribute_matcher.cc:171-283 | each operation moves the stored patterns and the number of those missed by the counter as its effect says, whatever its outcome |
| MatcherHistories.Play | base/attribute_matcher.h:302-335 | after any history of calls the matcher holds its outcome; the counter is the number of stored patterns less those it missed, modulo the word, and exact if and only if what it missed is a multiple of the word |
| MatcherHistories.NothingMissed | base/attribute_matcher.cc:171-194 | a history without upserts misses nothing |
| MatcherHistories.FirstUpsertIsMissed | base/attribute_matcher.cc:222-225 | one upsert on a new matcher stores a pattern and does not count it |
| MatcherHistories.UpsertThenRemoveIsMissed | base/attribute_matcher.cc:209-283 | upserting and removing one pattern leaves nothing stored and the counter at its greatest value |
| MatcherHistories.PlayAndList | base/attribute_matcher.cc:345-352 | after any history the listing succeeds exactly when the counter fits a vector; at sizes a vector can hold, exactly when no more was missed than is stored; always without upserts |
| MatcherHistories.ListingFails | base/attribute_matcher.cc:345-352 | upserting `a.b`, `a.c` and then `a` makes the listing fail |
| MatcherHistories.PlayAndMatch | base/attribute_matcher.h:348-396 | after any history a lookup answers as scanning the outcome does |
| MatcherHistories.OutcomesAreDisjoint | base/attribute_matcher.cc:171-283 | after any history the stored patterns are valid and pairwise disjoint |
| Attributes.MatchPattern | base/attribute.h:1114-1133 | the loop's answer is the one position-by-position matching gives |
| Attributes.LexicographicIsTotal | base/attribute.cc:648-670 | sequences over a total order are totally ordered |
| Attributes.QualifiersAreOrdered | base/attribute.cc:453-582 | qualifiers of mixed kinds are totally ordered |
| Attributes.AttributesAreOrdered | base/attribute.cc:320-670 | Attribute::Compare is a total order |
| Attributes.LexicographicMeans | base/attribute.cc:648-670 | one sequence comes before another exactly when the first difference decides so or it ends before that |
| Attributes.KeysCompare | base/attribute.cc:453-582 | keys of one kind are ordered by their values, false before true |
| Attributes.TextsCompare | base/attribute.cc:453-582 | string keys are ordered by their first different character, or the shorter first |
| Attributes.KindsCompare | base/attribute.cc:453-582 | of different kinds: empty, int, uint, string, bool, wildcard |
| Attributes.CompareAgreesWithEquality | base/attribute.cc:648-737 | Compare agrees with operator== for every other attribute exactly when no qualifier is empty |
| Attributes.EmptyQualifierComparesEqual | base/attribute.cc:648-737 | an attribute with an empty qualifier that compares as equal to itself and is not equal to itself |
| Attributes.Compare | base/attribute.cc:648-670 | the index loop is the lexicographic order, variable first |
| Utf8.DecodeEncode | internal/utf8.cc:411-436 | decoding what was encoded gives the code point and its length, whatever follows |
| Utf8.EncodedAsInRfc | internal/utf8.cc:411-436 | the bytes of a code point carry the marks of RFC 3629 in front and its bits behind them |
| Utf8.EncodeDecode | internal/utf8.cc:358-436 | a decoded code point is a scalar value, and its encoding is the bytes that were read |
| Utf8.NextIsEncoded | internal/utf8.cc:411-436 | in a well-formed text decoding goes from each code point to the next |
| Utf8.EncodingIsUnique | internal/utf8.cc:492-524 | a text encodes one sequence of code points only |
| Utf8.EncodedSize | common/source.cc:371-375 | a text has between a quarter of its bytes and its bytes in code points |
| Sources.SourceReader.AsciiLoop | common/source.cc:386-440 | the first loop fails, ends with ASCII only, or goes on in the storage that its code point needs, with what was read kept |
| Sources.SourceReader.Latin1Loop | common/source.cc:441-493 | the second loop likewise, in one byte a code point |
| Sources.SourceReader.BasicLoop | common/source.cc:495-535 | the third loop likewise, in two bytes a code point |
| Sources.SourceReader.SupplementalLoop | common/source.cc:537-566 | the last loop reads all that is left or fails |
| Sources.SourceReader.Run | common/source.cc:361-566 | whichever loop it ends in, the source shows the code points of the whole text with its tables |
| Sources.StoppedMeansBad | common/source.cc:386-397 | reading stops only at malformed text or past the limit |
| Sources.ShortTextsFit | common/source.cc:371-375 | the early check on a quarter of the size rejects only texts that have too many code points |
| Sources.NewSourceImpl | common/source.cc:361-566 | succeeds exactly on well-formed UTF-8 within the byte and code point limits, and holds content, lines and wide code points of the text |
| Sources.NewSource | common/source.cc:726-739 | the same with a negative limit as none |
| SourcePositions.WideMarks | common/source.cc:455-460 | the table holds the places of the wide code points in order and no others |
| SourcePositions.HolderIsUnique | common/source.h:147-156 | one code point at most holds a byte |
| SourcePositions.UpperBound | common/source.cc:184-222 | the search splits the table at the offset |
| SourcePositions.HeldBetween | common/source.cc:184-222 | between two entries the byte belongs to the entry's code point or to the ASCII run after it |
| SourcePositions.GetPositionFromByteOffset | common/source.cc:184-222 | the code point that holds the byte for every offset from 0 to the size, the count at the end, and nothing otherwise |
| SourceLines.StartMeans | common/source.cc:648-660 | a text has one line more than line feeds; each begins after the line feed that ends the one before, and no other line has a beginning |
| SourceLines.FindLine | common/source.cc:662-679 | the search gives the number of table entries passed, and the start of that line |
| SourceLines.LocationMeans | common/source.cc:572-580 | the line of a position counts the line feeds before it, the column the code points since the last one |
| SourceLines.GetLocation | common/source.cc:572-580 | computes the location of a position from the table |
| SourceLines.PositionMeans | common/source.cc:582-592 | a location has a position exactly when its line is one of the text and its column is not negative, and that is the column counted from where the line begins |
| SourceLines.PositionComesBack | common/source.cc:572-592 | a position comes back from its location exactly when it is between 0 and the size |
| SourceLines.LocationComesBack | common/source.cc:572-592 | a location comes back from its position exactly when its line exists and its column is inside it |
| SourceLines.ComputeSourceLocation | common/ast.cc:61-96 | the line that the position falls on in a table that increases so far, else no location |
| SourceLines.ComputedIsLocation | common/ast.cc:61-96 | on a source's own table it is the location that GetLocation gives |
| SourceLines.ComputedWithinText | common/ast.cc:61-96 | on a source's own table it finds a line exactly for positions up to the size |
| SourceLines.ToString | common/source.cc:91-137 | a part of the content as UTF-8, from any storage |
| SourceLines.Snippet | common/source.cc:594-605 | the UTF-8 text of a line, for every line of a non-empty content and no other |
| SourceLines.LinesRebuild | common/source.cc:398-400 | the lines joined with line feeds are the content |
| SourceLines.SnippetsRebuild | common/source.cc:594-605 | the snippets of all lines joined with line feeds are the text |
| SourceLines.NewSubrange | common/source.cc:681-706 | clamps its range, and its line table is the one its text would get by itself |
| SourceLines.KeptIsOwn | common/source.cc:699-706 | shifting the entries within a range gives the line ends of the range's own text |
| Exprs.RolesComplete | common/ast_traverse.cc:188-310 | the listed children of a node are all that are there, once each |
| TraversalOrder.RolesIncrease | common/ast_visitor.h:36-38 | the children are listed target before arguments, by position, key before value, and range, init, condition, step, result |
| TraversalOrder.ChildrenInOrder | common/ast_visitor.h:36-38 | of any two children, all that is told of the earlier comes before all that is told of the later |
| TraversalOrder.AroundChild | common/ast_traverse.cc:167-173 | after a target PostVisitTarget, after an argument PostVisitArg with its position, around other children nothing |
| TraversalOrder.Surroundings | common/ast_traverse.cc:100-164 | the callbacks that come first and last at each kind of node |
| TraversalOrder.SelectTrace | common/ast_traverse.cc:188-193 | the whole traversal of a selection |
| TraversalOrder.TargetBeforeArguments | common/ast_traverse.cc:195-207 | a call's target with its PostVisitTarget before each argument with its PostVisitArg |
| TraversalOrder.ArgumentsInOrder | common/ast_traverse.cc:195-207 | arguments first to last, each followed by PostVisitArg with its position |
| TraversalOrder.ElementsInOrder | common/ast_traverse.cc:209-215 | list elements first to last |
| TraversalOrder.FieldsInOrder | common/ast_traverse.cc:217-228 | field values first to last |
| TraversalOrder.KeyBeforeValue | common/ast_traverse.cc:230-245 | an entry's key before its value |
| TraversalOrder.EntriesInOrder | common/ast_traverse.cc:230-245 | a key or value of an entry before each key and value of a later one |
| TraversalOrder.ComprehensionTrace | common/ast_traverse.cc:247-266 | range, init, condition, step and result, each between the calls that name it |
| TraversalOrder.ComprehensionAsArguments | common/ast_traverse.cc:247-266 | the same as arguments 0 to 4 where those calls were not asked for |
| Traversals.PreVisit | common/ast_traverse.cc:99-128 | calls back what precedes the record's children |
| Traversals.PostVisit | common/ast_traverse.cc:130-186 | calls back what follows the record's children |
| Traversals.PushCallDeps | common/ast_traverse.cc:195-207 | pushes target and arguments so that they come off in order |
| Traversals.PushSelectDeps | common/ast_traverse.cc:188-193 | pushes the operand of a selection, if there is one |
| Traversals.PushListDeps | common/ast_traverse.cc:209-215 | pushes the elements so that they come off in order |
| Traversals.PushStructDeps | common/ast_traverse.cc:217-228 | pushes the values that are there so that they come off in order |
| Traversals.PushMapDeps | common/ast_traverse.cc:230-245 | pushes keys and values so that they come off in order |
| Traversals.PushComprehensionDeps | common/ast_traverse.cc:247-266 | pushes the parts of a comprehension, with their callbacks if these are wanted |
| Traversals.PushDependencies | common/ast_traverse.cc:268-317 | pushes what a record depends on, whichever its kind |
| Traversals.PreStep | common/ast_traverse.cc:337-353 | visiting the top emits the first events owed, leaves the others owed, and is one step less to go |
| Traversals.Turn | common/ast_traverse.cc:359-375 | one turn of the loop keeps what was emitted and what is owed together the same, with one step less to go |
| Traversals.AstTraverse | common/ast_traverse.cc:359-375 | emits exactly the callbacks of the recursive traversal |
| Traversals.AstTraversal.Step | common/ast_traverse.cc:337-353 | one step emits the first part of what is owed, and tells whether more is |
| Traversals.StepToEnd | common/ast_traverse.cc:337-357 | steps until done emit the whole traversal, and their number is known beforehand |
| Rewriting.FinishChildren | common/ast_rewrite.cc:298-348 | finishing the pushed records of the children is rewriting the children recursively |
| Rewriting.PushDependencies | common/ast_rewrite.cc:298-348 | pushes the places of the children an expression has by then, kind by kind, so that they come off in order |
| Rewriting.PushCallDeps | common/ast_rewrite.cc:225-238 | target and arguments, so that they come off in order |
| Rewriting.PushMapDeps | common/ast_rewrite.cc:260-275 | the keys and values that are there, so that they come off in order |
| Rewriting.PushComprehensionDeps | common/ast_rewrite.cc:277-296 | the five parts, with the records that the option asks for |
| Rewriting.PreVisit | common/ast_rewrite.cc:107-158 | calls back what precedes the children of an expression |
| Rewriting.PostVisit | common/ast_rewrite.cc:160-217 | calls back what follows the children of an expression |
| Rewriting.ArriveTurn | common/ast_rewrite.cc:350-387 | arriving at an expression, rewritten or not, and pushing its children changes nothing of the final outcome |
| Rewriting.Turn | common/ast_rewrite.cc:350-387 | one turn of the loop keeps the final outcome, and keeps every record's expression in the tree and the path that of the top |
| Rewriting.AstRewrite | common/ast_rewrite.cc:350-387 | for every visitor that does not grow the tree for ever: the tree, the visitor's state and the answer of the recursive rewriting |
| RewriteLog.RewriteLogged | common/ast_rewrite.cc:350-387 | for every such visitor, its calls logged: the log is a whole tour of the tree, the returned tree is the root with the logged answers put at their places in order, and the answer is true exactly if some logged answer was |
| RewriteLog.RewriteAtToured | common/ast_rewrite.cc:350-387 | whatever the visitor answers: at each place one rewrite is offered on arrival and one after the children of what was put there, which are visited first to last, with the callbacks of the traversal between |
| RewriteLog.TourIsPut | common/ast_rewrite.cc:350-387 | following a tour changes the tree by putting the answers at their places, one after the other |
| RewriteLog.OffersStand | common/ast_rewrite.cc:350-387 | each rewrite is offered of the expression that stands by then at the place the visitor was last told |
| RewriteLog.CallbacksStand | common/ast_rewrite.cc:350-387 | each callback is about the expression that stands by then at that place |
| RewriteLog.LoggedRewriteAt | common/ast_rewrite.cc:350-387 | keeping a log changes neither tree nor flag nor visitor |
| Rewriting.RewriteNothing | common/ast_rewrite.cc:350-387 | with a visitor that never rewrites: the same tree, false, and the calls of the plain traversal |
| Rewriting.SameCallbacksAsTraverse | common/ast_rewrite.cc:350-387 | those calls hold the callbacks of AstTraverse, in order |
| Rewriting.WayIsTold | common/ast_rewrite.cc:367-384 | each reported path leads from the root to the expression at hand |
| NavigableAst.RelationAgrees | common/navigable_ast.cc:68-109 | the relation found from position and last announced part is that of the child, nested comprehensions included |
| NavigableAst.RunTrace | common/navigable_ast.cc:111-173 | fed a subtree's callbacks, the builder appends that subtree's rows and postorder list and updates the parent's row |
| NavigableAst.Builder.PreVisitExpr | common/navigable_ast.cc:125-154 | enters a node under the current parent |
| NavigableAst.Builder.FindId | common/ast/navigable_ast_internal.h:252-262 | the first node with an id, if there is one |
| NavigableAst.Builder.IdsAreUnique | common/ast/navigable_ast_internal.h:277-284 | tells whether all ids differ |
| NavigableAst.Build | common/navigable_ast.cc:190-200 | builds the preorder table and the postorder list of the recursive tree |
| NavigableLayout.DescendantsAreARun | common/ast/navigable_ast_internal.h:205-208 | a node's descendants are exactly the tree_size entries that start at its index |
| NavigableLayout.Subtable | common/navigable_ast.cc:111-173 | those entries are the table of the subtree, and size and height are its own |
| NavigableLayout.ChildrenLinkBack | common/navigable_ast.cc:125-154 | a node's k-th listed child is its k-th child expression and links back with parent, index and relation |
| NavigableLayout.RelationsAreRoles | common/navigable_ast.cc:68-109 | every child's relation is its own field's exactly unless a map's keys and values are out of step |
| NavigableRelations.NodeKinds | common/navigable_ast.cc:42-66 | every node has the kind of its expression |
| NavigableRelations.ComprehensionChildren | common/navigable_ast.cc:86-107 | a comprehension node has five children: range, init, condition, step and result, each under its own relation |
| NavigableRelations.SelectChildren | common/navigable_ast.cc:68-109 | a selection's operand, if there is one, is its only child, as operand |
| NavigableRelations.CallChildren | common/navigable_ast.cc:79-85 | a call's children are its target as receiver, if there is one, and its arguments in order |
| NavigableRelations.ListChildren | common/navigable_ast.cc:68-109 | a list's children are its elements in order |
| NavigableRelations.StructChildren | common/navigable_ast.cc:68-109 | a struct's children are the field values that are there, in order |
| NavigableRelations.MapChildren | common/navigable_ast.cc:68-109 | a map's children are the keys and values that are there, in order, with relations by the parity of their place |
| NavigableRelations.ParityIsInStep | common/navigable_ast.cc:68-109 | these relations are right for all keys and values exactly when the entries are in step |
| NavigableRelations.MapChildrenInStep | common/navigable_ast.cc:68-109 | in a map that is in step every key is a key and every value a value |
| NavigableRelations.HeightMeans | common/navigable_ast.cc:164-172 | a node is one higher than its highest child; without children its height is one |
| NavigableLayout.CompleteEntriesAreInStep | common/navigable_ast.cc:74-78 | maps whose entries have key and value are in step |
| NavigableLayout.ValueTakenForKey | common/navigable_ast.cc:74-78 | a map for which the relation is wrong |
| NavigableLayout.PostorderLists | common/navigable_ast.cc:162-173 | the postorder list holds every node once |
| NavigableLayout.SubtreeInPostorder | common/navigable_ast.cc:162-173 | a node's descendants are exactly the tree_size entries of the postorder list that end at it |
| NavigableLayout.PostorderSpanOnlyAtRoot | common/ast/navigable_ast_internal.h:210-215 | DescendantsPostorder yields the descendants exactly when the node is the root |
| NavigableLayout.SpanMissesBelowRoot | common/ast/navigable_ast_internal.h:210-215 | below the root it yields a node that is no descendant |
| NavigableLayout.PostorderSpanOfOperand | common/ast/navigable_ast_internal.h:210-215 | a selection whose operand is given the selection as its descendant |
| ExprErase.Expand | common/expr.cc:210-291 | links what a node owns after the current end of the list, in order |
| ExprErase.LinkEntries | common/expr.cc:210-291 | links the keys and values of a map in order |
| ExprErase.OwnedIsNew | common/expr.cc:210-291 | what a node not yet expanded owns is not in the list yet |
| ExprErase.ExpandLevel | common/expr.cc:293-308 | the inner loop expands exactly the nodes listed since the previous level |
| ExprErase.AllListed | common/expr.cc:293-308 | when every listed node has been expanded, every node is listed |
| ExprErase.Flatten | common/expr.cc:293-308 | the level loop ends, with every node in the list once and descendants after ancestors |
| ExprErase.SafeToClear | common/expr.cc:309-318 | a node is cleared while it is alive, after all it owns and before any of that is destroyed |
| ExprErase.ClearLast | common/expr.cc:309-318 | one step of the walk reads the link before the node is cleared, and finds only cleared nodes below |
| ExprErase.FlattenedErase | common/expr.cc:293-318 | for every tree of nodes: every node ends cleared and everything but the root is destroyed, none twice |
| ExprEraseTrees.AttachIsTree | common/expr.cc:210-318 | a tree with a disjoint tree hung under its root is a tree |
| ExprEraseTrees.NewNode | common/expr.cc:210-318 | a new node over the roots of disjoint trees is a tree that can be erased |
| ExprEraseTrees.Allocate | common/expr.cc:210-318 | the nodes of every expression form such a tree |
| ExprEraseTrees.AllocateAndErase | common/expr.cc:293-318 | for every expression: its nodes end cleared, and all but the root destroyed |
| ExprClone.CloneEquals | common/expr.h:1129-1136 | the recursive copy is equal to the original under operator== |
| ExprClone.CloneIsOriginal | common/expr.cc:35-144 | the copy is the original itself, flags included, exactly when all field values, keys and values in it are set |
| ExprClone.CopyStep | common/expr.cc:35-134 | copying one node and leaving its children pending completes to the same tree |
| ExprClone.PendingStep | common/expr.cc:35-134 | pending destinations are there, empty and apart from one another, before and after each copy |
| ExprClone.CopyNode | common/expr.cc:35-134 | writes through a pointer that no resize has moved since it was taken, and pushes the children with pointers that are good too |
| ExprClone.CopyCall | common/expr.cc:56-69 | the argument vector is sized after the target pointer is taken and before those to arguments: all pending pointers stay good |
| ExprClone.ApartIsUntouched | common/expr.cc:35-134 | no pending destination lies in a vector of the node that is written |
| ExprClone.CloneImpl | common/expr.cc:136-144 | the stack loop ends with the recursive copy, equal to the original |
| Types.TypeIsItsParts | common/type.h:1240-1297 | kind, name and parameters determine a type up to equality |
| FormatTypeName.PushParts | common/format_type_name.cc:35-164 | pushing a record's rest and the part before it owes the same text and is one step less to go |
| FormatTypeName.FormatImpl | common/format_type_name.cc:35-164 | the piece written and what the stack then owes are what the record and the stack owed, with one step less to go |
| FormatTypeName.FormatTypeName | common/format_type_name.cc:168-178 | the stack machine ends and writes the recursive rendering |
| FormatTypeName.WrappersAreShown | common/format_type_name_test.cc:52-58 | a wrapper is shown by what it wraps |
| FormatTypeName.BasicsAreShown | common/format_type_name_test.cc:29-50 | other types without parts are shown by their names, `any` for short |
| FormatTypeName.PartsAreShown | common/format_type_name_test.cc:66-105 | a list, a map, an opaque type and `type` with their parts, for example |
| Assignability.TypeIsAssignable | common/decl.cc:37-83 | the recursion with its loop decides the rules of assignability |
| Assignability.AssignableIsTransitive | common/decl.cc:37-83 | assignability is transitive |
| Assignability.AssignableIsAntisymmetric | common/decl.cc:37-83 | types assignable to each other are equal |
| Assignability.AssignableIsLeast | common/decl.cc:37-83 | nothing is assignable beyond what reflexivity, `dyn`, wrappers and parameters force |
| Assignability.AssignableFollowsRules | common/decl.cc:37-83 | all that they force is assignable: a type to itself, everything to `dyn`, both types to a wrapper, parameter by parameter |
| Assignability.WrappersAccept | common/decl.cc:37-83 | each of the six wrappers accepts itself, null and its own primitive type, and nothing else |
| Assignability.BasicsAccept | common/decl.cc:37-83 | `dyn` accepts everything, every other type without parts that is no wrapper only itself |
| Assignability.ListAccepts | common/decl.cc:37-83 | a list accepts lists whose element it accepts |
| Assignability.MapAccepts | common/decl.cc:37-83 | a map accepts maps whose key and value it accepts |
| Assignability.FunctionAccepts | common/decl.cc:37-83 | a function type accepts function types by result and arguments |
| Assignability.OpaqueAccepts | common/decl.cc:37-83 | an opaque type accepts those of its name by their parameters |
| Assignability.TypeAccepts | common/decl.cc:37-83 | `type` accepts `type` by the parameter, if both have one or neither |
| Assignability.NamesAccept | common/decl.cc:37-83 | structs, enums and type parameters accept only themselves |
| Assignability.MeetIsCommon | common/decl.cc:37-83 | some type is assignable to both of two types exactly when one is to the other, both take null, or they differ only in parameters that meet in turn |
| OverloadSignatures.SpecsExist | common/type_spec_resolver.cc:226-324 | a type has a specification exactly when no part of it is unknown or a struct that is no message |
| OverloadSignatures.SpecKeepsParts | common/type_spec_resolver.cc:226-324 | a specification has the type's parts, converted, in order |
| OverloadSignatures.BasicNamesRead | common/type_spec_resolver.cc:226-324 | the specification of a type without parts is what its name reads as in the signature language |
| OverloadSignatures.SpecOfBlurred | common/type_spec_resolver.cc:226-324 | the normal form of a type's specification is the specification of the blurred type |
| OverloadSignatures.BlurredSpecsDiffer | common/type_spec_resolver.cc:226-324 | blurred types with one specification are one type |
| OverloadSignatures.NormalPrintsAlike | common/signature.cc:82-206 | a specification and its normal form have one description |
| OverloadSignatures.SignaturesCollide | common/signature.cc:222-232 | any two overloads share a signature exactly when name and member flag are the same and the signature tells the same names and parts of their arguments |
| OverloadSignatures.NamedAfterInt | common/signature.cc:222-232 | a message type named `int`, where there is one, and the integer type share a signature |
| OverloadSignatures.ReadableSignaturesCollide | common/signature.cc:222-232 | with readable names: exactly when the arguments differ at most in message, enum or opaque types of one name and in `type` for `type(dyn)` |
| Decls.SignaturesOverlap | common/decl.cc:89-107 | the loop decides whether two overloads have one kind of call and comparable arguments throughout |
| Decls.OverlapIsSymmetric | common/decl.cc:89-107 | overlapping does not depend on the order of the two |
| Decls.OverlapIsAmbiguous | common/decl.cc:89-107 | some call fits both of two overlapping overloads |
| Decls.SharedCalls | common/decl.cc:89-107 | some call fits both of two overloads exactly when they are of one kind and their arguments meet position by position |
| Decls.DisjointOverloadsShareACall | common/decl.cc:89-107 | two overloads that do not overlap share a call exactly when, besides, some of their arguments meet without being comparable |
| Decls.WrappersShareACall | common/decl.cc:89-107 | two overloads that do not overlap and both accept `null` |
| Decls.Appended | common/decl.cc:109-151 | adding a disjoint overload with a new id keeps all overloads disjoint and both tables exact |
| Decls.FunctionDecl.AddOverload | common/decl.h:299-309 | succeeds exactly when the signature can be made, the id is new and no overload overlaps, then appends; a failed call changes nothing |
| Decls.FunctionDecl.AddOverloadImpl | common/decl.cc:109-151 | the same under a status that stays failed; keeps ids unique and indexed, overloads disjoint, signatures leading to their last overload |
| Decls.FunctionDecl.FindOverloadById | common/decl.cc:210-219 | the overload with the id, else the last one added with that signature, else nothing |
| Decls.FunctionDecl.SignaturesAreShared | common/decl.cc:109-151 | two overloads were added under one signature exactly when name, flag and what it tells of the arguments agree |
| Decls.FunctionDecl.SignatureFindsOverload | common/decl.cc:210-219 | an overload is found by its signature exactly when that is its id, or is no id and no later overload shares the signature; for all names, readable or not |
| Decls.FunctionDecl.ReleaseOverloads | common/decl.h:319-325 | hands out the overloads and leaves none |
| Decls.AddingIsDeclaring | common/decl.cc:109-151 | one more overload can be added exactly when the list with it is well declared |
| Decls.MakeFunctionDecl | common/decl.h:360-372 | succeeds exactly when all signatures can be made, all ids differ and no two overloads overlap; then holds them in order |

## Left out

- SignatureCode.ParseTypeSpec: error texts are not modelled, here or elsewhere; an error says only that there is one.
- Sources.NewSourceImpl: models one sequence of bytes for string_view and Cord, and assumes fewer than 2^31 - 1 bytes for the last line offset, which overflows int32 at exactly that size in the source.
- Sources.SourceReader.Run: the jumps between the loops are calls one after the other, and each storage grows without being reserved beforehand.
- AttributeMatchers.AttributeMatcher.GetAttributes: sets of children are maps, so the order of the listing is not modelled, nor is running out of memory below the greatest size of a vector, which is a parameter.
- AttributeMatchers.Node.Remove: the count of levels a node is below its variable (`depth`) is kept but IsPartialWildcard and swap are not modelled.
- Attributes.MatchPattern: the printing of attributes as strings is not modelled.
- Rewriting.AstRewrite: works on a tree value with places in it for the source's pointers into a tree that is rewritten in place; the visitor must come with a measure that its rewrites do not raise, because a visitor that keeps growing the tree keeps the source's loop from ending.
- ExprClone.CloneImpl: works on a tree value with places in it for the source's destination pointers; when a vector is sized and when a pointer was taken is kept in ghost variables. Constants compare by value, so a NaN constant, which differs from itself in the source, is not modelled.
- ExprErase.FlattenedErase: an element of a list, struct or map counts as having its expression, as the source's mutable accessors make it; `ExprEraseTrees` takes every field of a comprehension as set, though `Expand` is proved for unset ones too; a node's destructor is the end of its life and no memory is modelled.
- Exprs.RolesComplete: has-flags that operator== ignores are modelled only where a traversal looks at them.
- OverloadSignatures.ToSpec: types compare structs by name, so which structs are messages is a set of names beside the type (`pool`), one for all overloads of a function: a message and a basic struct of one name in one function are not modelled.
- OverloadSignatures.SignaturesCollide: the way back from a specification to a type needs a descriptor pool and is not modelled.
- Decls.FunctionDecl.AddOverload: variable declarations and the collection of type parameters are left out; both are direct.
- NavigableAst.Build: the C++ iterators over the spans and the lookup by the address of an expression are left out; the spans themselves are modelled.
- Moves, allocators, arenas, locks and reference lifetimes.
- Protobuf conversion, descriptor pools, legacy values, the operator and function tables, containers, tools and DisplayErrorLocation.
