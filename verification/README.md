# Verified models of struct_mapping, utf8 and the Boost.MySQL reading and printing code

Three parts of the repository are modelled and proved here, each in the form of its source: state that
the source updates in place is updated by methods, and every method is proved against a function whose
laws are lemmas. `dafny verify dfyconfig.toml` checks everything.

**struct_mapping** reads JSON into registered structs and prints them.
`ParserSpec` gives the grammar as functions on the remaining text; `Parser` holds the reader with its
pushback character and line counter. `ParserLaws`, `Layout`, `Tokens`, `Commas` and `Prefixes` prove
what holds of every text, character by character in `Tokens`. `Trees` shows that every text that is read
completely has a document tree. `Schema` has types as finite trees. `Cursor` and `Mapping` define three
levels of the mapping: a machine with an explicit stack of open objects, its runs, and a plain recursion
on the document; `Routing` says which objects are open, and `Feeding` gives the machine the reader's
calls. `Objects` holds the real static state, one cursor and one set of flags for each type, and proves
that it refines the stack machine; `Mapper` drives it. `Acceptance` says which scalars are accepted and
which exception is thrown, `MemberLaws` and `ContainerLaws` what a mapped object contains, `Misrouting`
what becomes of names that are not registered, and `Leftovers` what a text can leave open for the next.
`PrinterSpec`, `Printer` and `Traversal` print and `Pretty` gives the layout; `RoundTrip`,
`ObjectRoundTrip` and `EndToEnd` put it together.

**utf8** transcodes with bit arithmetic on `bv8`, `bv16` and `bv32`, so shifts and sums wrap as in the
source. `Utf8Core`, `Utf8Checked` and `Utf8Faults` treat one character, `Utf8Text`, `Utf8Order` and
`Utf8Repair` strings, `Utf8Functions`, `Utf8Ranges`, `Utf8Replace` and `Utf16` the checked functions,
`Utf8Unchecked` the unchecked ones. The references are sections 1, 3 and 4 of RFC 3629 and sections 2.1
and 2.2 of RFC 2781.

**Boost.MySQL 0.2.0**: `ResultSet.dfy` and `ReadOperations.dfy` have the synchronous reads and the
coroutines with the executor that resumes them, over any stream of replies. `Calendar` and `Times` have
the printed dates and times, with division truncating toward zero as in C++.

Preconditions that run through struct_mapping:

- strings and names hold no double quote, since neither side escapes it, and member names are not empty
  (`Printable`);
- every nested struct or array in a document goes to a registered member or a container of objects
  (`Routable`); documents of objects always do;
- member names of a struct are distinct, and defaults and initial values have the member's type (`Wf`);
- the indent string is white space.

Findings, each proved below:

- a hidden null in front of a printed member leaves a stray comma, and the text cannot be read back
  (`EndToEnd.HiddenFirstIsLost`; `RoundTrip.PrintedReads` gives the exact condition);
- a nested struct or array under a name without a place is not skipped: its members land in the object
  around it, and its end closes that one early (`Routing.NodeSkipsStart` on every open path,
  `Routing.UnknownNodeReleases` for an object that is closed below; `Misrouting.UnknownNameMisroutes`
  shows two texts). Without an exception, open objects and text stay in step exactly when there is no
  such part (`Misrouting.InStepExactlyWhenRoutable`);
- a root that is a container of objects and no registered member's type is never reset, so an element that
  a broken text left open takes the events of the next one (`Leftovers.UnlistedRootMisroutes` shows two
  texts). What is open after a call is closed by the next reset, whatever the call, exactly when every type
  below the root that can be open is on the list (`Leftovers.CallsDecide`, and `Leftovers.ListDecides` for
  texts); for a struct root registration sees to that (`Objects.RegistrationReaches`);
- a sequence as root is printed but never read back (`EndToEnd.SequenceIsNotRead`);
- `next` reports every invalid code point as 0 (`Utf8Functions.Next`; `Utf8Functions.SurrogateReportedAsZero` for one).

## Model

| member | source | states |
|---|---|---|
| Parser.Reader.GetNextChar | include/struct_mapping/parser.h:58-71 | Hands out the pending character before the stream, so what remains loses exactly its first character; fails only when nothing remains |
| Parser.Reader.Wait | include/struct_mapping/parser.h:303-335 | Finds the next expected character behind white space, or stops; the line number stays one plus the newlines consumed outside strings |
| Parser.Reader.GetString | include/struct_mapping/parser.h:73-91 | Gives the text up to the closing quote, and may only be called when no character is pending |
| Parser.Reader.PushBack | include/struct_mapping/parser.h:271-273 | At most one character is pending, it is one of the three that end a literal, and it becomes the first of what remains: nothing is lost or reordered |
| Parser.Reader.SetNumber | include/struct_mapping/parser.h:257-301 | Collects a literal, leaves the character that ends it, and makes one call with the number, or stops with the literal when `stoll` or `stod` finds no number or the integer is out of range |
| Parser.Reader.ParseValue | include/struct_mapping/parser.h:132-176 | For every first character, the calls and the rest of the text are those of the grammar function; members and elements share it |
| Parser.Reader.ParseStructValue | include/struct_mapping/parser.h:207-255 | Name, colon and value of a member, for any text |
| Parser.Reader.ParseStruct | include/struct_mapping/parser.h:178-205 | The loop over members ends on every text and makes the calls of the grammar function |
| Parser.Reader.ParseArray | include/struct_mapping/parser.h:103-130 | The loop over elements ends on every text and makes the calls of the grammar function |
| Parser.Reader.Parse | include/struct_mapping/parser.h:48-55 | On every text the reader terminates with the calls, the fault and the remainder that the grammar function gives, in a consistent state |
| ParserLaws.DocumentNests | include/struct_mapping/parser.h:48-301 | The calls are well nested when reading succeeds, and otherwise the beginning of a well-nested sequence |
| ParserLaws.DocumentLocal | include/struct_mapping/parser.h:48-301 | A successful result does not depend on anything behind the matching outer brace |
| ParserLaws.DocumentSuffix | include/struct_mapping/parser.h:48-301 | What remains unread is a suffix of the text, also after a fault |
| Layout.DocumentStrip | include/struct_mapping/parser.h:93-101 | For every text, valid or not, white space outside quotes changes neither the calls nor the outcome |
| Layout.LayoutIrrelevant | include/struct_mapping/parser.h:303-335 | Two texts that differ in white space outside strings only are read alike |
| Tokens.WhiteIsSkipped | include/struct_mapping/parser.h:93-101 | Each of blank, tab, carriage return and newline can be left out outside quotes: same calls, same success, same fault |
| Tokens.OthersAreRefused | include/struct_mapping/parser.h:303-335 | Every other character but the brace in front of a document is the fault |
| Tokens.ScanCounts | include/struct_mapping/parser.h:320-323 | The line number is one more than the newlines that an even number of quotes precedes |
| Tokens.LoopTakes | include/struct_mapping/parser.h:103-205 | In a struct or array each character is skipped, refused, or taken, by kind and by what came before, written out character by character |
| Tokens.MemberTakes | include/struct_mapping/parser.h:207-255 | Behind name and colon a value has to start like one; a point does not |
| Tokens.ColonIsNeeded | include/struct_mapping/parser.h:211-211 | Anything but a colon behind a name is the fault |
| Tokens.OpenStringEnds | include/struct_mapping/parser.h:90-90 | A string without its closing quote is an unexpected end |
| Tokens.WordsAreRead | include/struct_mapping/parser.h:146-167 | The three words make their calls |
| Tokens.MisspeltIsRefused | include/struct_mapping/parser.h:146-167 | A wrong letter in a word is the fault, after any right ones |
| Tokens.NumberTakes | include/struct_mapping/parser.h:262-300 | Inside a literal each character is skipped, refused, taken, or left for what follows |
| Tokens.LiteralCalls | include/struct_mapping/parser.h:266-296 | A literal with a point behind its first character is a floating point number, any other an integer, or the fault |
| Commas.TrailingCommaIsNotRead | include/struct_mapping/parser.h:103-205 | In a text that is read completely, no comma directly in front of a closer has been read, white space aside |
| Prefixes.DocumentGrows | include/struct_mapping/parser.h:48-301 | A text that is read or refused is read or refused alike, with the same calls, whatever comes behind it; only an unexpected end can turn into something else, and its calls stay the first ones |
| Prefixes.CutTextEndsEarly | include/struct_mapping/parser.h:303-335 | Cutting any complete document anywhere before its last brace gives an unexpected end |
| Text.StollInvertsDecimal | include/struct_mapping/parser.h:282-282 | Reading the decimal text of a number gives that number exactly when it is in the range of 64 bits, written out, and nothing otherwise |
| Text.StollTakes | include/struct_mapping/parser.h:282-282 | A sign, digits and what follows give the signed number of the digits within that range |
| Text.StollNeedsDigit | include/struct_mapping/parser.h:282-282 | Without a digit behind the sign there is no number |
| Text.StodTakes | include/struct_mapping/parser.h:278-278 | A floating point literal needs a digit, or a point and a digit, behind its sign |
| Text.NumberIsPositional | include/struct_mapping/parser.h:282-282 | Digits count by their place in the decimal system |
| Printer.Writer.WriteLead | include/struct_mapping/mapper.h:212-240 | Comma, line break, indentation and name in front of a value, as the shared comma flag and depth demand |
| Printer.Writer.Indentation | include/struct_mapping/mapper.h:222-225 | The countdown loop writes the indent string once for each open level |
| Printer.Writer.SetNull | include/struct_mapping/mapper.h:152-197 | Writes a null unless nulls are hidden, and clears the comma flag in either case |
| Printer.Writer.StartNode | include/struct_mapping/mapper.h:375-418 | Opens a struct or array; only a struct at depth 0 starts without a line break |
| Printer.Writer.EndNode | include/struct_mapping/mapper.h:420-441 | Closes a struct or array one level further out |
| Traversal.IterateOver | include/struct_mapping/object.h:79-102 | Driving the callbacks over any object writes the rendering of its document and restores depth and comma flag |
| Traversal.IterateMembers | include/struct_mapping/member.h:127-195 | Visits the members in order of registration, an absent optional as a null |
| Traversal.IterateItems | include/struct_mapping/object_array_like.h:34-81 | Visits the elements in order, without names |
| Traversal.IterateEntries | include/struct_mapping/object_map_like.h:34-74 | Visits the bindings in key order, with the keys as names |
| ObjectRoundTrip.DocumentOrder | include/struct_mapping/member.h:127-195 | Child by child: members as registered with absent optionals as nulls, elements in order without names, entries by ascending keys |
| Traversal.MapStructToJson | include/struct_mapping/mapper.h:142-509 | The whole text of an object is the rendering of its document |
| RoundTrip.RenderStrips | include/struct_mapping/mapper.h:142-509 | Printed text, stripped of white space outside quotes, is the compact text, for every white-space indent |
| Text.DecimalShape | include/struct_mapping/mapper.h:271-282 | Integers are printed with a minus exactly below zero, digits, and no needless zero |
| Pretty.PrintedIsSpread | include/struct_mapping/mapper.h:142-509 | For every document and indent, printed text is its compact form spread over lines by one rule on brackets, commas, colons and depth |
| Pretty.LayoutIsDecided | include/struct_mapping/mapper.h:142-509 | So all white space of printed text is decided by its other characters and the indent, and there is none with an empty indent |
| Pretty.PrintedLines | include/struct_mapping/mapper.h:217-225 | Each line break outside quotes is followed by the indent, character by character, once for each bracket open there, a closer already closed, and then by no white space |
| Pretty.CompactIsCanonical | include/struct_mapping/mapper.h:142-509 | The compact form is the plain text of the document: brackets, names with colons, commas between children, words, digits and quoted strings |
| RoundTrip.PrintedReads | include/struct_mapping/mapper.h:142-509 | Reading printed text succeeds exactly when no struct or array starts with a hidden null and then prints something; the calls are then the pre-order traversal and nothing is left over; otherwise the fault is the comma |
| RoundTrip.HiddenFirstReads | include/struct_mapping/mapper.h:196-196 | In compact text, a hidden null that comes first makes the reader stop at the stray comma behind it, unless nothing follows; PrintedReads carries this to every indent |
| EndToEnd.HiddenFirstIsLost | include/struct_mapping/mapper.h:196-196 | Any struct whose first member is an absent optional and another one is not, printed with nulls hidden and any white-space indent, is never mapped back onto any target |
| EndToEnd.OptionalFirstIsLost | include/struct_mapping/mapper.h:196-196 | A concrete struct and object of that kind |
| EndToEnd.ShownNullsNeverLead | include/struct_mapping/mapper.h:162-162 | With nulls printed that can never happen |
| Objects.Statics.Reset | include/struct_mapping/reset.h:19-25 | Closes the cursors of the registered types and of no other, and leaves the flags alone |
| Objects.Statics.Reg | include/struct_mapping/object.h:357-379 | Registering the members of a struct puts the struct and the containers nested directly in its members on the list to be reset |
| Objects.RegistrationReaches | include/struct_mapping/object.h:357-379 | Once all structs below a root are registered, all that can be missing on the list is the root, if it is a container of objects, and the containers of objects directly in it |
| Objects.ListedOpens | include/struct_mapping/object.h:357-379 | With every type below the root that can be open on the list, only types on the list are ever open |
| Leftovers.CallsDecide | include/struct_mapping/reset.h:19-25 | Onto any target, every sequence of calls leaves open only types that the next reset closes, if and only if all types below the root that can be open are on the list |
| Leftovers.ListDecides | include/struct_mapping/reset.h:19-25 | The same of texts, when member names hold no quote: every text leaves open only types that the next reset closes, if and only if all types below the root that can be open are on the list |
| Leftovers.RootStaysOpen | include/struct_mapping/object_array_like.h:249-273 | Every root that is a container of objects is left open, and nothing else, by a text that breaks off inside an element |
| Objects.Statics.Init | include/struct_mapping/object.h:63-77 | Clears the flags of one type and of no other |
| Objects.Statics.Set | include/struct_mapping/object.h:130-325 | Routing a scalar by the per-type cursors does what the machine with an explicit stack does; statics of unrelated types are untouched |
| Objects.Statics.SetHere | include/struct_mapping/object.h:386-430 | A scalar on a closed object: limits, bounds, conversion and flag, or the exception |
| Acceptance.ConvertDecides | include/struct_mapping/object.h:130-325 | A scalar is accepted exactly when it is of the kind of the type and, if a number, within its limits, and is taken as what it holds; else the exception is bad type or out of limits |
| Acceptance.ConvertMemberDecides | include/struct_mapping/object.h:386-430 | For a member the declared bounds are looked at after the limits |
| Acceptance.FloatsAreRefused | include/struct_mapping/object.h:170-211 | A floating point literal has the wrong kind for every modelled type |
| Acceptance.SetDecides | include/struct_mapping/object_array_like.h:112-247 | What a scalar child of a struct, sequence or map does, or the exception, from the type and the document alone |
| Objects.Statics.Use | include/struct_mapping/object.h:327-355 | Opening a nested object by cursors is opening it on the explicit stack |
| Objects.Statics.UseHere | include/struct_mapping/object_array_like.h:249-273 | A closed container adds (or, for a map, finds) an element and opens it with cleared flags |
| Objects.Statics.Release | include/struct_mapping/object.h:104-128 | Closing by cursors closes exactly the innermost open object of the explicit stack |
| Objects.Statics.ReleaseMembers | include/struct_mapping/member.h:197-203 | Members are released in order: required, default, not empty; all flags of the type end cleared |
| Mapper.Apply | include/struct_mapping/mapper.h:24-126 | Each callback of the mapper does to cursors and object what one step of the stack machine does, with the struct level kept |
| Mapper.Replay | include/struct_mapping/mapper.h:128-139 | For every root, a run of callbacks on the per-type cursors computes the run on the stack up to the first exception, and leaves the types open that are open there; for the calls of a routable document it is the direct recursive mapping and the path ends closed |
| Mapper.MapJsonToStruct | include/struct_mapping/mapper.h:19-140 | For every text, object root and static state that fits the target after the reset: result and open types are those of the stack machine from there; if only listed types were open, the result depends on text and target alone, and the same holds of the next call exactly when the text leaves only listed types open |
| Feeding.LeftoverFlagsHarmless | include/struct_mapping/object.h:63-77 | Flags that an earlier run left behind cannot be observed |
| Feeding.DepthStep | include/struct_mapping/object.h:104-128 | A start opens one level exactly when the innermost object has a place for its name, an end closes exactly the innermost level, a scalar moves nothing |
| Feeding.DepthBounded | include/struct_mapping/mapper.h:80-126 | The open path is never deeper than the nesting of the calls |
| Feeding.AllClosed | include/struct_mapping/mapper.h:19-140 | After any complete text that maps, every object is closed, routable or not |
| Mapping.OpenRunsChild | include/struct_mapping/object.h:350-353 | While a child is open the outer object does nothing but pass events on and take the child back |
| Mapping.KidsRun | include/struct_mapping/object.h:130-355 | Running the events of any children from a closed object is mapping the children recursively, and then going on |
| Feeding.FeedComputesMapping | include/struct_mapping/object.h:104-355 | For every document whose nested parts have a place in the schema, and any leftover flags, the stack machine computes the direct recursive mapping or throws what it throws, and ends closed; Mapper.Replay states it of the cursors |
| Routing.HandleMoves | include/struct_mapping/object.h:104-355 | Every event moves the types on the open path as its name alone says: a start appends the nested type or nothing, an end drops the last one unless only the root is left |
| Routing.KidsInStep | include/struct_mapping/object.h:327-355 | A path so moved stays as long as the nesting of the text through the children of a document exactly when every nested part has a place |
| Routing.NestingIsNest | include/struct_mapping/parser.h:48-301 | Where every end has its start, the nesting counts the open structs and arrays |
| Misrouting.InStepExactlyWhenRoutable | include/struct_mapping/object.h:104-355 | If mapping the children throws nothing, the open objects are in step with the nesting of the text after every event if and only if every nested part has a place in the schema |
| Routing.NodeSkipsStart | include/struct_mapping/object.h:339-342 | On any open path, a nested part whose name has no place in the innermost object runs as if its own start were not there |
| Routing.UnknownNodeReleases | include/struct_mapping/object.h:339-342 | So its children are mapped onto the object around it and its end releases that object, for every such document |
| Misrouting.UnknownNameMisroutes | include/struct_mapping/object.h:339-342 | Two texts: one sets a member of the outer struct, one fails on a required member that was set |
| Acceptance.FirstRefusal | include/struct_mapping/object.h:130-355 | When mapping the children stops, it is with the exception of the first refused child in document order, all before it having gone through |
| Acceptance.RefusedStops | include/struct_mapping/object.h:130-355 | And a refused child behind children that go through always stops it so |
| Feeding.MapperThrowsFirst | include/struct_mapping/mapper.h:128-139 | The first exception of the mapper is the result, whatever the reader would find later |
| Leftovers.UnlistedRootMisroutes | include/struct_mapping/object.h:357-379 | A root map that is no member type: a first text breaks off inside an entry, the reset does not close the map, and the next text mapped onto it lands in that entry |
| MemberLaws.MembersAreSeparate | include/struct_mapping/member.h:197-203 | Although flags are shared by all objects of a type, each member ends as if only the children with its name existed, and is flagged exactly when one was not null |
| MemberLaws.ScalarKeepsLast | include/struct_mapping/object.h:386-430 | A scalar member goes through exactly when each of its values is accepted, ends with what its last non-null value holds or as it was, and else throws for the first one refused |
| MemberLaws.FinishSettles | include/struct_mapping/member.h:332-408 | Closing succeeds exactly when every member accepts, and settles each member by itself |
| MemberLaws.FinishThrows | include/struct_mapping/member.h:197-203 | A failing close throws for the first member in order of registration that does not accept: required before not empty |
| MemberLaws.MembersDecide | include/struct_mapping/object.h:130-355 | The children of a struct go through exactly when, for each member alone, all its own values are accepted |
| MemberLaws.StructMapped | include/struct_mapping/member.h:197-408 | Mapping a struct succeeds exactly when each member accepts its own values, is mentioned in that object if required, and does not end empty if it must not; each member is then its last value, its default, or its old value |
| MemberLaws.StructThrows | include/struct_mapping/member.h:197-408 | When the children go through, mapping a struct fails only in closing, with the first member required and not mentioned, or empty and not to be |
| ContainerLaws.SequenceIsFold | include/struct_mapping/object_array_like.h:83-299 | A sequence holds its old contents followed by the parsed elements in order, nested ones included |
| ContainerLaws.ScalarElements | include/struct_mapping/object_array_like.h:112-247 | The elements of a sequence of scalars are what the document holds, in order, unless one is refused; then the exception is for the first |
| ContainerLaws.MapIsFold | include/struct_mapping/object_map_like.h:101-273 | A map of scalars keeps its old bindings and takes the first new one for every other key |
| ContainerLaws.SameBindings | include/struct_mapping/object_map_like.h:258-273 | A map kept in key order is determined by its bindings |
| Schema.KeyOrder | include/struct_mapping/object_map_like.h:258-273 | Keys are ordered by the first character in which they differ, and a key comes before what extends it |
| ObjectRoundTrip.EntriesMap | include/struct_mapping/object_map_like.h:235-273 | A map of anything keeps bindings for other keys and maps each entry of a printed map onto what its key has, or onto a fresh value |
| ObjectRoundTrip.NodeComesBack | include/struct_mapping/object.h:104-355 | Mapping the document of an object onto a target gives the object exactly when the target lets every part be rebuilt |
| ObjectRoundTrip.StructComesBack | include/struct_mapping/member.h:197-203 | A struct comes back exactly when every member goes through and settles as it was |
| Trees.DocumentIsTree | include/struct_mapping/parser.h:48-301 | The calls of every text that is read completely and holds no floating point number are the traversal of a document tree |
| EndToEnd.TextMaps | include/struct_mapping/mapper.h:19-140 | For every such text, written by hand or printed, mapping the text is mapping its tree when the nested parts have a place |
| EndToEnd.PrintedTextMaps | include/struct_mapping/mapper.h:19-509 | Mapping printed text is mapping the document, with the same exceptions, unless a hidden null spoils the text; then the mapper throws before, or the reader at the stray comma |
| EndToEnd.SequenceIsNotRead | include/struct_mapping/mapper.h:19-509 | A sequence as root is printed, but its text is refused at the bracket |
| EndToEnd.ObjectSurvives | include/struct_mapping/mapper.h:19-509 | Round trip for every schema, object, target and white-space indent: printing and mapping back gives the object if and only if it is no sequence, no hidden null leads and the target lets it be rebuilt |
| ObjectRoundTrip.FreshRestores | include/struct_mapping/member.h:197-203 | Without options, every object can be rebuilt on a fresh one |
| EndToEnd.PlainObjectSurvives | include/struct_mapping/mapper.h:19-509 | Without options, every struct or map, printed with any white-space indent and mapped onto a fresh one, comes back |
| Utf8Core.EncodeDecodes | mlnserver/utf8/checked.h:72-96 | Every valid code point is written as a character of the grammar of RFC 3629 that holds its bits |
| Utf8Core.DecodeEncodes | mlnserver/utf8/checked.h:72-96 | Every character of that grammar denotes a valid code point and is the only encoding of it |
| Utf8Core.CharShape | mlnserver/utf8/core.h:100-113 | The first octet of a character announces its length, and only it is no continuation octet |
| Utf8Checked.SequenceOf3 | mlnserver/utf8/core.h:178-195 | The masked shifts and sums of three octets are the bits of the standard; the two checks on the sum accept exactly the grammar |
| Utf8Checked.SequenceOf4 | mlnserver/utf8/core.h:197-218 | The same for four octets, with the exact octets that exceed the code points |
| Utf8Checked.IncreaseSafely | mlnserver/utf8/core.h:137-147 | Tells the end of the range from a missing continuation octet |
| Utf8Checked.GetSequence2 | mlnserver/utf8/core.h:163-176 | Reads the second octet, or reports what stopped it |
| Utf8Checked.GetSequence3 | mlnserver/utf8/core.h:178-195 | Reads two continuation octets, or reports what stopped it |
| Utf8Checked.GetSequence4 | mlnserver/utf8/core.h:197-218 | Reads three continuation octets, or reports what stopped it |
| Utf8Checked.JudgedByChecks | mlnserver/utf8/core.h:250-266 | The checks after decoding classify a complete sequence as the grammar does |
| Utf8Checked.ValidateNext | mlnserver/utf8/core.h:222-271 | Accepts exactly the characters of the grammar, reports the right one of five errors otherwise, and then restores iterator and code point |
| Utf8Faults.Announces | mlnserver/utf8/core.h:100-113 | The ranges of first octets that announce one to four octets, or none |
| Utf8Faults.JudgeMeans | mlnserver/utf8/core.h:222-271 | Each of the five errors, and success, holds exactly for the octets that the announced length, the continuation octets present, the bits and their bounds describe |
| Utf8Text.EncodeThenDecode | mlnserver/utf8/checked.h:248-264 | `utf8to32` after `utf32to8` is the identity on valid code points |
| Utf8Text.DecodeThenEncode | mlnserver/utf8/checked.h:248-264 | Whenever an octet string decodes, encoding the result gives exactly that string, so no string has a second spelling |
| Utf8Text.LanguageIsDecodable | mlnserver/utf8/core.h:222-271 | Decoding goes through on exactly the language of the grammar |
| Utf8Text.LongestRun | mlnserver/utf8/core.h:284-294 | Where decoding stops is the end of the longest prefix in the language |
| Utf8Text.LengthIsStarts | mlnserver/utf8/checked.h:196-204 | A valid string has as many code points as octets that are no continuation octets |
| Utf8Text.StartsAreLeads | mlnserver/utf8/core.h:74-78 | In a valid string a character starts exactly at the octets that are no continuation octets |
| Utf8Text.ShorterIsNoString | mlnserver/utf8/core.h:100-113 | No proper prefix of a character is a string: encodings are prefix free |
| Utf8Order.CharLess | mlnserver/utf8/checked.h:72-96 | Of two characters that first differ at some octet, the one with the smaller octet has the smaller code point |
| Utf8Order.EncodingKeepsOrder | mlnserver/utf8/checked.h:72-96 | Octet-wise order of encodings is the order of the code points, for all valid strings (section 1 of RFC 3629) |
| Utf8Functions.Append | mlnserver/utf8/checked.h:72-96 | Writes the encoding of a valid code point, and throws without writing for every other value |
| Utf8Functions.Next | mlnserver/utf8/checked.h:136-154 | Code point and new position for a character, else the exception with its octet and an unmoved iterator; an invalid code point is always reported as 0 |
| Utf8Functions.SurrogateReportedAsZero | mlnserver/utf8/checked.h:150-151 | The octets of the surrogate 0xD800 are reported as code point 0 |
| Utf8Faults.NextThrows | mlnserver/utf8/checked.h:136-154 | not_enough_room exactly for octets that end too early, invalid_code_point with 0 exactly for complete sequences without a code point, invalid_utf8 with the first octet exactly for the others |
| Utf8Faults.InterruptedIsInvalidUtf8 | mlnserver/utf8/checked.h:146-149 | E2 28 A1 throws invalid_utf8 with E2 |
| Utf8Functions.Prior | mlnserver/utf8/checked.h:162-175 | Steps to the last octet that is no continuation octet and decodes up to where it was, or throws as the octets before it demand |
| Utf8Functions.PriorUndoesNext | mlnserver/utf8/checked.h:136-175 | On valid text, stepping back from where `next` arrives gives the same position and code point |
| Utf8Functions.NextUndoesPrior | mlnserver/utf8/checked.h:136-175 | And stepping forward from where `prior` arrives returns |
| Utf8Ranges.Advance | mlnserver/utf8/checked.h:189-194 | The position behind the first n code points, or the position and exception of the first fault |
| Utf8Ranges.Distance | mlnserver/utf8/checked.h:196-204 | The decoded length, which on valid text is the number of octets that are no continuation octets |
| Utf8Ranges.Utf8to32 | mlnserver/utf8/checked.h:257-264 | Writes the decoded run, and completes exactly on the language |
| Utf8Ranges.Utf32to8 | mlnserver/utf8/checked.h:248-255 | Writes the encoding up to the first invalid code point and throws with that one |
| Utf8Ranges.FindInvalid | mlnserver/utf8/core.h:284-294 | The end of the longest run from the start that is in the language: no longer prefix is |
| Utf8Ranges.IsValid | mlnserver/utf8/core.h:296-300 | Decides the language of the grammar |
| Utf8Replace.ReplaceInvalid | mlnserver/utf8/checked.h:98-127 | Output and exception are those of the repair function, round by round |
| Utf8Repair.RepairedIsValid | mlnserver/utf8/checked.h:98-127 | Only valid UTF-8 is ever written, for any input and replacement, also before an exception |
| Utf8Repair.ValidIsKept | mlnserver/utf8/checked.h:98-127 | Valid input is copied, whatever the replacement |
| Utf8Repair.RepairIsIdempotent | mlnserver/utf8/checked.h:98-127 | Repairing again changes nothing, even with another replacement |
| Utf8Repair.RepairedLength | mlnserver/utf8/checked.h:98-127 | At most one replacement, so at most four octets, is written for each octet read |
| Utf8Repair.ThrowsWhenTruncated | mlnserver/utf8/checked.h:108-109 | With a valid replacement the only exception is not_enough_room, thrown exactly when the last octet that is no continuation octet announces more octets than remain |
| Utf8Repair.ThrowsWithBadReplacement | mlnserver/utf8/checked.h:110-123 | With an invalid replacement the work completes exactly on valid input, and else ends at the first fault: not_enough_room if the octets end too early there, invalid_code_point with the replacement otherwise |
| Utf8Repair.RepairConcat | mlnserver/utf8/checked.h:98-127 | Text can be repaired in pieces cut before octets that are no continuation octets; a cut-off piece counts as incomplete when text follows |
| Utf8Repair.RepairPiece | mlnserver/utf8/checked.h:110-123 | What one such piece becomes, in closed form: with RepairConcat this determines the whole output |
| Utf16.OffsetsEncode | mlnserver/utf8/checked.h:239-240 | The offset arithmetic modulo 2^32 and 2^16 gives the surrogates of section 2.1 of RFC 2781 |
| Utf16.OffsetDecodes | mlnserver/utf8/checked.h:216-216 | The wrapped sum with the surrogate offset is the value of section 2.2 of RFC 2781 |
| Utf16.DecodesWhenPaired | mlnserver/utf8/checked.h:206-231 | Decoding fails exactly when the input holds an unpaired surrogate |
| Utf16.StopsAtFirstUnpaired | mlnserver/utf8/checked.h:206-231 | Decoding stops at the first unpaired surrogate |
| Utf16.ThrowsWord | mlnserver/utf8/checked.h:218-227 | The word thrown is the one behind a lead surrogate if there is one, and else the surrogate itself |
| Utf16.UnitsThenDecode | mlnserver/utf8/checked.h:206-246 | Decoding the units of valid code points gives them back |
| Utf16.DecodeThenUnits | mlnserver/utf8/checked.h:206-246 | The units of what was decoded, and the rest, are the input |
| Utf16.Utf16to8 | mlnserver/utf8/checked.h:206-231 | Writes the encoding of what decodes, throws exactly on an unpaired surrogate, and names the unit after a lead or else the lone one |
| Utf16.Utf8to16 | mlnserver/utf8/checked.h:233-246 | Writes the units of what decodes and completes exactly on valid UTF-8 |
| Utf16.OctetsComeBack | mlnserver/utf8/checked.h:206-246 | UTF-8 to UTF-16 and back is the identity on valid UTF-8 |
| Utf16.UnitsComeBack | mlnserver/utf8/checked.h:206-246 | UTF-16 to UTF-8 and back is the identity on well-formed UTF-16 |
| Utf8Unchecked.Next | mlnserver/utf8/unchecked.h:60-89 | Moves by the announced length and reads no octet behind it |
| Utf8Unchecked.NextAgrees | mlnserver/utf8/unchecked.h:60-89 | Where the checked form finds a character, the unchecked one gives the same position and code point without reading at or behind the end |
| Utf8Unchecked.Prior | mlnserver/utf8/unchecked.h:97-103 | On valid text the same position and code point as the checked form, reading inside the range only |
| Utf8Unchecked.Advance | mlnserver/utf8/unchecked.h:112-117 | On valid text the position of the checked form |
| Utf8Unchecked.Distance | mlnserver/utf8/unchecked.h:119-127 | On valid text the number of the checked form |
| Utf8Unchecked.IncrementAgrees | mlnserver/utf8/unchecked.h:199-203 | Moving the unchecked iterator by the announced length alone is moving by one character |
| Utf8Unchecked.Append | mlnserver/utf8/unchecked.h:37-58 | Writes what the checked form writes for a valid code point |
| Utf8Unchecked.Utf8to32 | mlnserver/utf8/unchecked.h:168-175 | On valid text the output of the checked form, reading inside the range only |
| Utf8Unchecked.Utf32to8 | mlnserver/utf8/unchecked.h:159-166 | The encoding of every value, valid ones as the checked form writes them |
| Utf8Unchecked.Utf8to16 | mlnserver/utf8/unchecked.h:144-157 | On valid text the output of the checked form, reading inside the range only |
| Utf8Unchecked.Utf16to8 | mlnserver/utf8/unchecked.h:129-142 | On well-formed input the output of the checked form; the unit after a lead is always there |
| ResultSets.ReadingDelivers | boost_mysql-0.2.0_src/include/boost/mysql/impl/resultset.hpp:63-90 | A read delivers the rows next in the stream; fewer than asked for come only at the end or a failure, and only that reply is consumed beyond them |
| ResultSets.RowsDetermine | boost_mysql-0.2.0_src/include/boost/mysql/impl/resultset.hpp:63-90 | No other rows fit that description |
| ResultSets.ReadingSplits | boost_mysql-0.2.0_src/include/boost/mysql/impl/resultset.hpp:63-90 | Unless the first read fails, reading a and then b rows is reading a + b |
| ResultSets.BatchingIsIrrelevant | boost_mysql-0.2.0_src/include/boost/mysql/impl/resultset.hpp:63-90 | However a client cuts its reads into batches, it gets the same rows, error and end |
| ResultSets.ReadsWholeStream | boost_mysql-0.2.0_src/include/boost/mysql/impl/resultset.hpp:103-116 | Asking for more than there is delivers the whole stream and its end |
| ResultSets.ResultSet.ReadRow | boost_mysql-0.2.0_src/include/boost/mysql/impl/resultset.hpp:38-47 | The scripted oracle; may only be called while the end has not been received |
| ResultSets.ResultSet.ReadOne | boost_mysql-0.2.0_src/include/boost/mysql/impl/resultset.hpp:22-50 | A row, a cleared output at the end, or an error; never reads behind the end |
| ResultSets.ResultSet.ReadMany | boost_mysql-0.2.0_src/include/boost/mysql/impl/resultset.hpp:63-90 | Rows, error, end flag and position of the reading function |
| ResultSets.ResultSet.ReadAll | boost_mysql-0.2.0_src/include/boost/mysql/impl/resultset.hpp:103-110 | The same with the largest count: the whole stream and its end for every stream of fewer than 2^64 - 1 rows |
| ReadOperations.ReadManyOp.Resume | boost_mysql-0.2.0_src/include/boost/mysql/impl/resultset.hpp:253-301 | Each resumption keeps what the coroutine owes: delivered now, promised for after a read, or delivered after a post; never delivered before the first suspension |
| ReadOperations.Serve | boost_mysql-0.2.0_src/include/boost/mysql/impl/resultset.hpp:253-301 | Doing what the coroutine asks for and resuming it keeps the final outcome, and consumes one reply for each read |
| ReadOperations.AsyncReadMany | boost_mysql-0.2.0_src/include/boost/mysql/impl/resultset.hpp:304-327 | For every stream and count the handler gets what the synchronous loop returns, once, at the end, after the reads or a single post |
| ReadOperations.AsyncReadAll | boost_mysql-0.2.0_src/include/boost/mysql/impl/resultset.hpp:329-346 | The same with the largest count, the whole stream and the requests included |
| ReadOperations.ReadOneOp.Resume | boost_mysql-0.2.0_src/include/boost/mysql/impl/resultset.hpp:137-170 | The two paths of the one-row coroutine, a post or a read, and what each leaves behind |
| ReadOperations.AsyncReadOne | boost_mysql-0.2.0_src/include/boost/mysql/impl/resultset.hpp:173-193 | The handler gets what the synchronous form returns, after exactly one suspension |
| Times.PartsRebuild | boost_mysql-0.2.0_src/include/boost/mysql/impl/value.hpp:56-59 | For every duration, positive or negative, minutes and seconds stay below 60, micros below 10^6, and the weighted sum is the duration |
| Times.PrintTime | boost_mysql-0.2.0_src/include/boost/mysql/impl/value.hpp:50-70 | The truncating divisions print the sign and parts of the magnitude |
| Times.PrintDatetime | boost_mysql-0.2.0_src/include/boost/mysql/impl/value.hpp:39-49 | The day that holds the point in time and the time since its midnight, also before the epoch |
| Times.PrintDate | boost_mysql-0.2.0_src/include/boost/mysql/impl/value.hpp:31-38 | The calendar date of the day |
| Times.TimeComesBack | boost_mysql-0.2.0_src/include/boost/mysql/impl/value.hpp:50-70 | The printed time denotes exactly the duration it was printed for |
| Times.DatetimeComesBack | boost_mysql-0.2.0_src/include/boost/mysql/impl/value.hpp:39-49 | The printed point in time denotes exactly that point; the time of day is below 24 hours |
| Times.TimeShape | boost_mysql-0.2.0_src/include/boost/mysql/impl/value.hpp:61-67 | An optional sign, two or more digits of hours without a needless zero, and colon, colon and point in their places among digits |
| Times.DateShape | boost_mysql-0.2.0_src/include/boost/mysql/impl/value.hpp:36-36 | Four, two and two digits with dashes between |
| Times.DatetimeShape | boost_mysql-0.2.0_src/include/boost/mysql/impl/value.hpp:46-48 | A date, a blank and a time of day, 26 characters |
| Times.TextFits | boost_mysql-0.2.0_src/include/boost/mysql/impl/value.hpp:54-61 | In the supported range the text fits the buffers |
| Calendar.NextDayNumber | boost_mysql-0.2.0_src/include/boost/mysql/detail/protocol/impl/date.hpp:50-64 | From each valid date to the next the day number goes up by one, across months, leap years and eras |
| Calendar.DateComesBack | boost_mysql-0.2.0_src/include/boost/mysql/detail/protocol/impl/date.hpp:50-81 | Every valid date is found again from its day number |
| Calendar.DateAfter | boost_mysql-0.2.0_src/include/boost/mysql/detail/protocol/impl/date.hpp:50-64 | Counting days of the calendar from year 0 stays among valid dates with the day numbers in between |
| Calendar.DayComesBack | boost_mysql-0.2.0_src/include/boost/mysql/detail/protocol/impl/date.hpp:66-81 | For every day in range the printed date is valid, has that number, and is the one that counting leads to |
| Calendar.EpochIsDayZero | boost_mysql-0.2.0_src/include/boost/mysql/detail/protocol/impl/date.hpp:50-81 | Day 0 is 1 January 1970 |

## Left out

- Parser.Reader.SetNumber: does not model `out_of_range` from `std::stod`, which depends on the range of `double`; a literal with a '.' that has digits is passed on as its text.
- Floating point values: members, elements and printing of type float or double are not modelled, so a floating point literal is a type error for every member.
- `Trees.DocumentIsTree` and `EndToEnd.TextMaps` exclude texts with floating point literals, which document trees do not have.
- The reader and the mapper run interleaved in the source; here the calls are recorded and then replayed. The result is the same, because the reader does not see what the callbacks do and the mapper's first exception is the one that comes first.
- Mapper.MapJsonToStruct: the partly filled object that is left after an exception is not described. Objects are values that the methods return, so writing through references into one object is not modelled.
- Mapper.MapJsonToStruct: what is left open from an earlier call has to describe objects of the target at hand; the source keeps an iterator, and with another target writes through it into the earlier one.
- Leftovers.ListDecides: a member whose name holds a double quote cannot be named by a text, so names are taken to hold none.
- Exception texts are reduced to their kind and the name, value or line they mention.
- The one `Objects.Statics.Set` stands for the four `set_` functions, which route alike; the kind of value decides the conversion.
- A second registration of the same name, enums, `MemberString` conversions, optional structs and recursive schemas.
- Opening a registered scalar member as a struct indexes the callback table with NO_INDEX in the source; the model returns an error that no theorem relies on.
- `std::set`, multimaps and unordered maps: containers are sequences in order and maps with unique keys in key order.
- The unsigned wrap-around of `indent_count` and `struct_level`, which balanced calls never reach.
- A directly read NUL character is an ordinary character that can never be pushed back.
- Iterators over octets wider than 8 bits, which `mask8` would reduce; octets are 8 bits here. `previous`, `is_bom`, `starts_with_bom` and the iterator classes beyond `++` add nothing to `prior` and `next`.
- Unchecked functions on invalid input, where the source reads out of range, are not callable in the model, except `next`, which only needs the announced octets to be there.
- Asynchronous reads: one operation at a time on a resultset; executors, cancellation and the moves of the handler. `read_row` is a script of replies, and error texts are not modelled.
- `value` conversions between integer types and the remaining visitors: single expressions.
- HTTP handlers, Redis, connection pooling, configuration and uuids: input and output over libraries that are not part of this model.
