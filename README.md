# Transport catalogue: a verified model in Dafny

This project models the core of the transport-catalogue program: a registry of bus stops and
bus routes, the request interface that feeds it and answers stat requests, and the small JSON
library the program reads and writes its documents with (the reader, the typed node
accessors, the string and int printer with its print context, and the typestate JSON builder).

How the files are laid out:

- `wrappers.dfy`: `Option` and `Result`.
- `geo.dfy`: coordinates and their EPSILON equality. The geodesic formula is a parameter `arc`.
- `names.dfy`: the lexicographic order on names, `lower_bound` and sorted insertion.
- `domain.dfy`: `Stop`, `Bus` and the distance key. Pointers are indices into append-only arenas.
- `routes.dfy`: route expansion, the distinct-stop count, the `GetDistance` lookup and route length, all on values.
- `catalogue.dfy`: the class `TransportCatalogue`, whose fields are updated in place.
- `requests.dfy`: the class `RequestInterface`, `GetAnswers` and `Process`.
- `json.dfy`: `Node` and the `As*` accessors.
- `json_parser.dfy`: each loader of json.cpp as a function from a text and a cursor position to the node read and the position after it, or to the `ParsingError` message, together with lemmas about what each loader accepts.
- `json_stream.dfy`: the loaders as methods over a `Stream`, a text plus a cursor. Their loops are proved to compute the functions of `json_parser.dfy`.
- `json_printer.dfy`: the print context, and the string and int printers writing to a `Writer`. A lemma shows the reader reads the printed text back.
- `builder_spec.dfy`: the builder's transitions on a value state. The stack of `Node*` is modelled as a sequence of paths from the root.
- `json_builder.dfy`: the classes `Builder` and `KeyWithFlag`, which perform those transitions in place.

A failing C++ operation is modelled by what it throws. For a `ParsingError` or a
`logic_error`, that is `Err(message)` with the exact message of the source. For the
`invalid_argument` of `GetAnswers`, it is a `thrown` result.

Some behaviour of the code is reproduced as written:

- `LoadNull` tests `input >> c` before `i < 4`, so it extracts and drops a fifth character after `null`. `NullOnlyNull` states this, and so `[null]` does not read as an array.
- `LoadBool` appends the last extracted character once more after its loop. `BoolOnlyTrueFalse` shows that the net effect is to accept exactly `true` and `false`.
- `LoadDict` checks neither the opening quote of a key nor the colon.
- At the end of the input, `LoadNode` gives a null node.
- In the builder, a repeated key leaves the old value in place. A container opened under a repeated key is the old value, not the new container, so the typestate of `json_builder.h` no longer describes the builder (`BuilderSpec.RepeatedKeyOpensOldValue`).
- `AddBus` with an empty stop list returns before setting the ring flag.
- `AddDistance` with an unknown stop name stores the entry under a null pointer.
- `vertex_count_` is never written.

## Model

| member | source | states |
|---|---|---|
| Geo.SamePointSymmetric | transport-catalogue/geo.h:11-13 | the EPSILON equality of coordinates is symmetric, so the zero branch of the geodesic does not depend on argument order |
| Names.LessIrreflexive | transport-catalogue/transport_catalogue.cpp:15 | the string order `lower_bound` uses is irreflexive |
| Names.LessTransitive | transport-catalogue/transport_catalogue.cpp:15 | the string order is transitive |
| Names.LessTotal | transport-catalogue/transport_catalogue.cpp:15 | two different names are ordered one way or the other |
| Names.LessAsymmetric | transport-catalogue/transport_catalogue.cpp:15 | the string order is asymmetric |
| Names.LowerBound | transport-catalogue/transport_catalogue.cpp:15 | binary search: every name before the returned position is smaller, none from it on is |
| Names.LowerBoundFinds | transport-catalogue/transport_catalogue.cpp:15-18 | in a strictly sorted list the lower bound holds the name iff the name is in the list, which is the duplicate test of `AddBus` |
| Names.InsertKeepsSorted | transport-catalogue/transport_catalogue.cpp:19-20 | inserting a new name at its lower bound keeps the list strictly sorted, grows it by one and adds exactly that name |
| Names.InsertedAtLowerBound | transport-catalogue/transport_catalogue.cpp:15-20 | inserting at the position `lower_bound` returns gives the list with the name placed before the first entry not smaller than it |
| Routes.ExpandedShape | transport-catalogue/transport_catalogue.cpp:46-51 | a linear route of n stops is stored as 2n - 1 stops: the input, then the input backwards, a palindrome from the first stop to the first stop |
| Routes.ExpandedElements | transport-catalogue/transport_catalogue.cpp:46-51 | expansion adds no stop that was not in the input |
| Routes.ElementsBounds | transport-catalogue/transport_catalogue.cpp:39-43 | a non-empty route has between 1 and n distinct stops |
| Routes.CountUnique | transport-catalogue/transport_catalogue.cpp:39-43 | the loop that fills the unordered set counts exactly the distinct stops of the input |
| Routes.ExpandLinear | transport-catalogue/transport_catalogue.cpp:46-51 | the push-back loop from `end() - 2` down to the second stop, then the first stop, produces the out-and-back expansion |
| Routes.DistanceAfterStore | transport-catalogue/transport_catalogue.cpp:64-69 | after storing (a, b) = m, the distance from a to b is m, the distance from b to a is m unless (b, a) has its own entry, and every other pair's distance is unchanged |
| Routes.DistanceFallback | transport-catalogue/transport_catalogue.cpp:101-109 | without an entry in either direction, `GetDistance` is the geodesic distance (0 for EPSILON-equal points) and is symmetric |
| Routes.SumDistances | transport-catalogue/transport_catalogue.cpp:112-121 | the accumulation loop computes the road length, the sum of `GetDistance` over consecutive stops |
| Routes.RouteLengthJoin | transport-catalogue/transport_catalogue.cpp:112-121 | the road length of two routes joined at a shared stop is the sum of their lengths |
| Routes.ExpandedLength | transport-catalogue/transport_catalogue.cpp:46-60 | a linear route's length is its outbound length plus the length of the reversed route, each leg looked up in its own direction |
| Routes.RouteLengthSameCoordinates | transport-catalogue/transport_catalogue.cpp:101-121 | a route's length depends on the stops only through their coordinates |
| Catalogue.StoredInArena | transport-catalogue/transport_catalogue.cpp:45-56 | the stored route visits exactly the stops of the input |
| Catalogue.NewBusShape | transport-catalogue/transport_catalogue.cpp:27-61 | a new bus record has: for an empty route, every default, ring flag unset; otherwise the distinct-stop count of the input (between 1 and n), a ring stored unchanged with the flag set, a linear route stored as the 2n - 1 palindrome, and the road length of the stored route |
| Catalogue.Marked | transport-catalogue/transport_catalogue.cpp:22-25 | a stop's bus set holds the new bus iff it did before or the route names the stop; names and coordinates are unchanged |
| Catalogue.MarkStops | transport-catalogue/transport_catalogue.cpp:22-25 | the loop over the stop names inserts the bus name into exactly the bus sets `Marked` describes |
| Catalogue.BuildBus | transport-catalogue/transport_catalogue.cpp:27-60 | the record-building steps of `AddBus` compute the record `NewBus` describes |
| Catalogue.AddStopKeepsInvariant | transport-catalogue/transport_catalogue.cpp:9-12 | appending a stop and repointing its name keeps the catalogue invariant: name maps point at records of that name, bus names are sorted and unique, and bus sets match the routes |
| Catalogue.AddBusKeepsInvariant | transport-catalogue/transport_catalogue.cpp:14-62 | a fresh bus name, bus sets marked for the route and a record visiting the same stops keep the catalogue invariant |
| Catalogue.RegisterBus | transport-catalogue/transport_catalogue.cpp:19-60 | once the name is new: sorted insertion, bus sets marked, the `NewBus` record appended and registered, and the invariant kept |
| Catalogue.SameLengths | transport-catalogue/transport_catalogue.cpp:22-25 | changing bus sets leaves every recorded bus length valid |
| Catalogue.AddBusKeepsLengths | transport-catalogue/transport_catalogue.cpp:14-62 | `AddBus` never invalidates a recorded route length, and the new bus is measured on the stops it leaves |
| Catalogue.AfterAddBus | transport-catalogue/transport_catalogue.cpp:14-62 | the `AddBus` transition on the arenas, bus map and name list: a registered name leaves them as they were; otherwise the stop arena keeps its size and exactly the new name is registered in addition |
| Catalogue.NewBusSameCoordinates | transport-catalogue/transport_catalogue.cpp:101-121 | a bus record depends on the stops only through their coordinates, so marking bus sets later does not change an earlier record |
| Catalogue.TransportCatalogue.constructor | transport-catalogue/transport_catalogue.h:36-42 | an empty catalogue satisfies the invariant with `vertex_count_` 0 |
| Catalogue.TransportCatalogue.AddStop | transport-catalogue/transport_catalogue.cpp:9-12 | a new record without buses is appended and the name repointed at it; earlier records, buses and distances are unchanged |
| Catalogue.TransportCatalogue.FindStop | transport-catalogue/transport_catalogue.cpp:87-92 | absent iff no stop of that name was added; otherwise the newest record of that name |
| Catalogue.TransportCatalogue.GetStopInfo | transport-catalogue/transport_catalogue.cpp:79-85 | the same result as `FindStop`, with a null pointer as nullopt |
| Catalogue.TransportCatalogue.FindBus | transport-catalogue/transport_catalogue.cpp:94-99 | absent iff no bus of that name was added; otherwise the record of that name |
| Catalogue.TransportCatalogue.GetBusInfo | transport-catalogue/transport_catalogue.cpp:71-77 | the same result as `FindBus`, with a null pointer as nullopt |
| Catalogue.TransportCatalogue.AddDistance | transport-catalogue/transport_catalogue.cpp:64-69 | only the entry of the ordered pair (FindStop(lhs), FindStop(rhs)) is set, and nothing else changes |
| Catalogue.TransportCatalogue.GetDistance | transport-catalogue/transport_catalogue.cpp:101-109 | the entry for (a, b) if there is one, else the entry for (b, a), else the geodesic distance, which is 0 for EPSILON-equal points; with at most one direction stored, the answer is the same both ways for a symmetric geodesic formula |
| Catalogue.TransportCatalogue.ComputeRouteDistance | transport-catalogue/transport_catalogue.cpp:112-121 | the road length of the bus's stored route |
| Catalogue.TransportCatalogue.AddBus | transport-catalogue/transport_catalogue.cpp:14-62 | the new state is one `AfterAddBus` step: a registered name changes nothing, whatever its stops; otherwise the name is added to the sorted list, the named stops get the bus, and the `NewBus` record is appended; the invariant is kept and the distance table and stop map are unchanged |
| Catalogue.TransportCatalogue.Size | transport-catalogue/transport_catalogue.h:54 | the number of registered buses |
| Catalogue.TransportCatalogue.Empty | transport-catalogue/transport_catalogue.h:55 | true iff no bus is registered |
| Catalogue.TransportCatalogue.BusNames | transport-catalogue/transport_catalogue.h:52-53 | iteration yields the bus names strictly sorted, each registered bus exactly once |
| Catalogue.TransportCatalogue.GetVertexCount | transport-catalogue/transport_catalogue.h:42-50 | the counter is 0 and no operation changes it |
| Requests.PointedNewest | transport-catalogue/request_handler.cpp:7-9 | after the stops are fed in order, a name resolves iff it was known or is an input, an input name resolves to its last occurrence, and other names are unchanged |
| Requests.PointedCovers | transport-catalogue/request_handler.cpp:7-9 | every earlier name and every input name resolves after `AddStops` |
| Requests.ForwardedAppend | transport-catalogue/request_handler.cpp:11-17 | forwarding two lists of triples in turn is forwarding their concatenation |
| Requests.ForwardedLastWins | transport-catalogue/request_handler.cpp:11-17 | every forwarded triple is stored, and the last triple for a key wins |
| Requests.ForwardedUntouched | transport-catalogue/request_handler.cpp:11-17 | a key no triple resolves to keeps its entry or its absence |
| Requests.InputNamesMeaning | transport-catalogue/request_handler.cpp:19-21 | a name is among the bus inputs' names iff some input carries it |
| Requests.FirstOccurrences | transport-catalogue/request_handler.cpp:19-21 | the inputs that reach the new-name branch of `AddBus`, in input order: each is an input, its name was not registered before, and no name occurs twice |
| Requests.FirstOccurrenceRegistered | transport-catalogue/transport_catalogue.cpp:15-18 | the first input carrying a new name reaches the new-name branch, so the record registered under that name is built from it and later inputs of that name are ignored |
| Requests.AfterAddBuses | transport-catalogue/request_handler.cpp:19-21 | `AddBus` applied to every input in order: the stop arena keeps its size and exactly the names registered before or carried by an input are registered afterwards |
| Requests.AddBusesAppends | transport-catalogue/request_handler.cpp:19-21 | the old records stay, and one record per first occurrence of a new name is appended in input order, each the `NewBus` record of that input measured on the final stops |
| Requests.AddBusesMarks | transport-catalogue/transport_catalogue.cpp:22-25 | after all inputs, each stop keeps its name and coordinates, and its bus set gains exactly the names of the new buses whose input calls at it |
| Requests.AnswerMeaning | transport-catalogue/request_handler.cpp:24-58 | for a Bus or Stop request: not found iff no record has the name, else the record of that name (for a stop, the newest); a Map request is always answered; a Route request is not found iff an endpoint is unknown, else it carries both stops; any other type throws; every answer carries the request's id |
| Requests.AnswersInOrder | transport-catalogue/request_handler.cpp:23-59 | one answer per request in request order when every type is known; otherwise exactly the answers before the first unknown type, where it throws |
| Requests.AnswersStopAtThrow | transport-catalogue/request_handler.cpp:56-58 | once a request has thrown, later requests add nothing |
| Requests.RequestInterface.constructor | transport-catalogue/request_handler.h:17-25 | the interface holds the given catalogue and input containers, with no answers yet |
| Requests.RequestInterface.AddStops | transport-catalogue/request_handler.cpp:7-9 | each input, in order, becomes a stop record; the stop map is repointed input by input; buses and distances are unchanged |
| Requests.RequestInterface.AddDistances | transport-catalogue/request_handler.cpp:11-17 | every (lhs, rhs, meters) entry, row by row, is forwarded to `AddDistance`, and nothing else changes |
| Requests.RequestInterface.AddRow | transport-catalogue/request_handler.cpp:13-15 | the inner loop forwards one stop's entries in order |
| Requests.RequestInterface.AddBuses | transport-catalogue/request_handler.cpp:19-21 | each bus input, in order, is given to `AddBus`: the arenas, bus map and name list become `AfterAddBuses` of the inputs; the invariant is kept, stops map and distances are unchanged, and every bus added records the road length under the final table |
| Requests.RequestInterface.FeedBus | transport-catalogue/request_handler.cpp:20 | one `AddBus` call: the new state is one `AfterAddBus` step, the invariant is kept and every recorded length stays valid |
| Requests.RequestInterface.GetAnswers | transport-catalogue/request_handler.cpp:23-60 | the answers appended are exactly those of `Answers`, and it throws exactly at the first request of unknown type |
| Requests.Process | transport-catalogue/request_handler.cpp:61-70 | stops, then distances, then buses: the stop map becomes `Pointed` of the stop inputs, the table `Forwarded` of the distance rows on that map, the buses `AfterAddBuses` of the bus inputs on the new stop records and the final table; every input stop and bus resolves, every bus added records its road length under the final table, and the answers are those of the final catalogue |
| Json.AsBool | transport-catalogue/json.cpp:233-238 | succeeds iff the node is a bool, returning it; otherwise "Is not Bool" |
| Json.AsInt | transport-catalogue/json.cpp:240-245 | succeeds iff the node is an int, returning it; otherwise "Is not Int" |
| Json.AsDouble | transport-catalogue/json.cpp:247-255 | succeeds iff the node is a double or an int; an int is converted; otherwise "Is not Double" |
| Json.AsString | transport-catalogue/json.cpp:257-262 | succeeds iff the node is a string, returning it; otherwise "Is not String" |
| Json.AsArray | transport-catalogue/json.cpp:264-269 | succeeds iff the node is an array, returning its items; otherwise "Is not Array" |
| Json.AsMap | transport-catalogue/json.cpp:271-276 | succeeds iff the node is a dict, returning its entries; otherwise "Is not Map" |
| Json.AccessorsInvertConstructors | transport-catalogue/json.cpp:233-276 | every accessor inverts its constructor, and no two type tests other than the int/double widening succeed on one node |
| JsonParser.Extracted | transport-catalogue/json.cpp:163 | `input >> c` skips whitespace and takes the next character; it fails iff only whitespace remains |
| JsonParser.DigitsAt | transport-catalogue/json.cpp:21-28 | `read_digits` fails with "A digit is expected" iff no digit follows; otherwise it takes the whole digit run |
| JsonParser.IntegerEnd | transport-catalogue/json.cpp:34-40 | the integer part is a lone '0' or a digit run, and it fails iff no digit follows |
| JsonParser.FractionEnd | transport-catalogue/json.cpp:43-48 | the fraction is present iff a '.' follows |
| JsonParser.ExponentEnd | transport-catalogue/json.cpp:51-58 | the exponent is present iff an 'e' or 'E' follows |
| JsonParser.Stoi | transport-catalogue/json.cpp:61-62 | `stoi` yields only 32-bit values |
| JsonParser.Convert | transport-catalogue/json.cpp:60-68 | an int lexeme gives an in-range Int, any other lexeme gives a Double, and a failed conversion gives "Failed to convert <text> to number" |
| JsonParser.Unescape | transport-catalogue/json.cpp:97-116 | exactly the five escapes n, t, r, ", \ are recognised |
| JsonParser.ParseArray | transport-catalogue/json.cpp:160-175 | a successful array read ends just after a ']' |
| JsonParser.ParseNode | transport-catalogue/json.cpp:197-223 | a node read never moves the cursor backwards, and consumes input whenever a non-space character is next |
| JsonParser.StringUnterminated | transport-catalogue/json.cpp:77-81 | a string whose text holds no quote is never completed |
| JsonParser.StringRawLineBreak | transport-catalogue/json.cpp:118-121 | a raw line feed or carriage return before any quote or escape fails with "Unexpected end of line" |
| JsonParser.StringEndsAtQuote | transport-catalogue/json.cpp:83-87 | the read stops at, and consumes, the closing quote; nothing after it affects the result |
| JsonParser.NumberRunJoin | transport-catalogue/json.cpp:21-58 | running the number recogniser over two texts in turn is running it over their concatenation |
| JsonParser.NumberLexemeGrammar | transport-catalogue/json.cpp:21-58 | the text `LoadNumber` collects is a number of the RFC 8259 grammar, tagged int iff it has no fraction and no exponent |
| JsonParser.NumberNeedsDigits | transport-catalogue/json.cpp:21-40 | every lexer failure is "A digit is expected": a missing integer digit fails, and so does a '.' followed by a non-digit or by the end of the text |
| JsonParser.NullOnlyNull | transport-catalogue/json.cpp:132-142 | accepted iff the four characters extracted spell `null`; a fifth character is then consumed; otherwise "Unexpected value" |
| JsonParser.BoolReadsTrue | transport-catalogue/json.cpp:144-153 | the four characters `true` read as true |
| JsonParser.BoolReadsFalse | transport-catalogue/json.cpp:144-156 | the five characters `false` read as false |
| JsonParser.BoolAcceptsOnlyWords | transport-catalogue/json.cpp:144-158 | anything the bool loader accepts was extracted as `true` or `false` |
| JsonParser.BoolOnlyTrueFalse | transport-catalogue/json.cpp:144-158 | accepts exactly `true` and `false`, and fails with "Unexpected value" otherwise |
| JsonParser.ArrayAppendsInOrder | transport-catalogue/json.cpp:163-168 | elements are appended in the order read, after those read before |
| JsonParser.NodeAfterSpace | transport-catalogue/json.cpp:197-199 | leading whitespace does not change the node read |
| JsonParser.ArrayCommaSkippable | transport-catalogue/json.cpp:163-167 | a comma before an element is a separator: reading from before or after it gives the same array |
| JsonParser.DictKeepsFirst | transport-catalogue/json.cpp:180-188 | a key already in the dict keeps its first value, because `insert` ignores repeats |
| JsonStream.Stream.Extract | transport-catalogue/json.cpp:163 | the stream extraction moves the cursor as `Extracted` says |
| JsonStream.ReadDigits | transport-catalogue/json.cpp:21-28 | the loop appends the digit run, or fails as `DigitsAt` does |
| JsonStream.ReadNumber | transport-catalogue/json.cpp:30-58 | the reading half of `LoadNumber` collects exactly the lexeme `NumberLexeme` gives, with its int tag |
| JsonStream.LoadNumber | transport-catalogue/json.cpp:9-69 | the loader computes `ParseNumber`: the same node and cursor, or the same message |
| JsonStream.LoadString | transport-catalogue/json.cpp:71-130 | the loader computes `ParseString` |
| JsonStream.LoadNull | transport-catalogue/json.cpp:132-142 | the loader computes `ParseNull` |
| JsonStream.LoadBool | transport-catalogue/json.cpp:144-158 | the loader computes `ParseBool` |
| JsonStream.LoadArray | transport-catalogue/json.cpp:160-175 | the loader computes `ParseArray` |
| JsonStream.LoadDict | transport-catalogue/json.cpp:177-195 | the loader computes `ParseDict` |
| JsonStream.LoadNode | transport-catalogue/json.cpp:197-223 | the loader computes `ParseNode` |
| JsonStream.Load | transport-catalogue/json.cpp:306-308 | the document is the first node of the text |
| JsonPrinter.Indented | transport-catalogue/json.cpp:321-323 | the nested context keeps the stream and the step, and indents one step further |
| JsonPrinter.IndentedTimesIndent | transport-catalogue/json.cpp:321-323 | k levels of nesting indent by k steps |
| JsonPrinter.PrintIndent | transport-catalogue/json.cpp:315-319 | writes one space per unit of indent |
| JsonPrinter.EscapeChar | transport-catalogue/json.cpp:335-354 | ", line feed, carriage return and backslash are written as a backslash plus a character the reader decodes back to the original; every other character, tab included, is written as is |
| JsonPrinter.PrintString | transport-catalogue/json.cpp:332-357 | writes the escaped string between two quotes |
| JsonPrinter.EscapedReadsBack | transport-catalogue/json.cpp:71-130 | the string reader decodes an escaped body back to the original string and stops just after the closing quote |
| JsonPrinter.PrintedStringReadsBack | transport-catalogue/json.cpp:332-357 | reading what the string printer wrote gives the same string node, whatever follows it |
| JsonPrinter.StoiIntText | transport-catalogue/json.cpp:60-62 | `stoi` of an int's decimal text is the int iff it fits 32 bits |
| JsonPrinter.PrintedIntReadsBack | transport-catalogue/json.cpp:359-363 | reading a printed int gives the same Int node when it fits 32 bits, and otherwise the conversion error |
| JsonPrinter.PrintInt | transport-catalogue/json.cpp:359-363 | writes the decimal text of the int |
| BuilderSpec.NodeAtJoin | transport-catalogue/json_builder.h:48 | following a path in two parts is following the whole path |
| BuilderSpec.SetAtThenGet | transport-catalogue/json_builder.cpp:62-66 | after an update through a path, the path leads to the new node |
| BuilderSpec.Emplaced | transport-catalogue/json_builder.cpp:66 | `emplace` adds the key only if absent; a repeated key keeps its first value |
| BuilderSpec.AddKeepsValid | transport-catalogue/json_builder.cpp:83-106 | opening a container keeps the stack a chain of open containers, innermost last |
| BuilderSpec.ValueKeepsValid | transport-catalogue/json_builder.cpp:53-71 | placing a value keeps the state well formed |
| BuilderSpec.PopKeepsValid | transport-catalogue/json_builder.cpp:18 | popping the innermost container keeps the state well formed |
| BuilderSpec.OpeningKeepsValid | transport-catalogue/json_builder.h:47-49 | a new builder is well formed, and `StartDict`, `StartArray` and `Value` keep it so |
| BuilderSpec.ClosingKeepsValid | transport-catalogue/json_builder.cpp:13-51 | `EndDict`, `EndArray` and `Key` keep the state well formed |
| BuilderSpec.ValueRules | transport-catalogue/json_builder.cpp:53-71 | a fresh root becomes the value; with nothing open and a root set it fails; in an array it appends; after a key it emplaces and clears the flag; anywhere else "Value unexpected in this context" |
| BuilderSpec.StartDictRules | transport-catalogue/json_builder.cpp:6-11 | succeeds iff a value may be placed, opens one more container (a new empty dict unless the key repeats), and otherwise gives "Start Dict unexpected in this context" |
| BuilderSpec.StartArrayRules | transport-catalogue/json_builder.cpp:24-29 | succeeds iff a value may be placed, opens one more container (a new empty array unless the key repeats), and otherwise gives "Start Array unexpected in this context" |
| BuilderSpec.KeyAndEndRules | transport-catalogue/json_builder.cpp:13-51 | `Key` succeeds iff an open dict has no pending key, and then that key is pending; `EndDict` pops iff the top is a dict with no pending key; `EndArray` pops iff the top is an array; with the source's messages otherwise |
| BuilderSpec.BuildRules | transport-catalogue/json_builder.cpp:73-81 | the root iff nothing is open and the root is set; otherwise "Dict or Array is not ended" or "Empty Node" |
| BuilderSpec.ArrayReturnAllows | transport-catalogue/json_builder.h:12-19 | in an open array, `Value`, `StartDict`, `StartArray` and `EndArray` succeed and `Value` stays in the array; `Key` and `EndDict` fail |
| BuilderSpec.DictReturnAllows | transport-catalogue/json_builder.h:29-34 | in a dict without a pending key, only `Key` and `EndDict` succeed, and `Key` leads to the key context |
| BuilderSpec.KeyReturnAllows | transport-catalogue/json_builder.h:21-27 | after a key, only `Value`, `StartArray` and `StartDict` succeed, and `Value` returns to the dict context |
| BuilderSpec.RepeatedKeyOpensOldValue | transport-catalogue/json_builder.cpp:98-103 | under a repeated key, `Value` keeps the old value; `StartArray` opens the old value, so `EndArray` fails when that value is not an array |
| BuilderSpec.ValuesIntoArray | transport-catalogue/json_builder.cpp:61-63 | values placed in an open array are appended in order |
| BuilderSpec.ArrayOfValues | transport-catalogue/json_builder.cpp:24-81 | `StartArray`, one `Value` per item, `EndArray` and `Build` give exactly the array of those items |
| BuilderSpec.FirstWinsKeepsFirst | transport-catalogue/json_builder.cpp:66 | a key's value in the built dict is the value of its first pair |
| BuilderSpec.FirstWinsKeeps | transport-catalogue/json_builder.cpp:66 | a key already present keeps its value |
| BuilderSpec.PairsIntoDict | transport-catalogue/json_builder.cpp:42-71 | alternating `Key` and `Value` in an open dict emplaces each pair, the first value winning |
| BuilderSpec.DictOfPairs | transport-catalogue/json_builder.cpp:6-81 | `StartDict`, `Key`/`Value` per pair, `EndDict` and `Build` give the dict of the pairs, where a repeated key keeps its first value |
| JsonBuilder.KeyWithFlag.constructor | transport-catalogue/json_builder.h:43-44 | a new key holder is empty and not pending |
| JsonBuilder.KeyWithFlag.Call | transport-catalogue/json_builder.h:39-42 | stores the key and marks it pending |
| JsonBuilder.Builder.constructor | transport-catalogue/json_builder.h:47-49 | a new builder has a null root, an empty stack and no pending key |
| JsonBuilder.Builder.AddNewNodeContainer | transport-catalogue/json_builder.cpp:83-106 | updates the fields in place to the transition's state when it applies; otherwise returns false and changes nothing |
| JsonBuilder.Builder.StartDict | transport-catalogue/json_builder.cpp:6-11 | performs the `StartDict` transition in place, or throws its message and changes nothing |
| JsonBuilder.Builder.EndDict | transport-catalogue/json_builder.cpp:13-22 | performs the `EndDict` transition in place, or throws its message and changes nothing |
| JsonBuilder.Builder.StartArray | transport-catalogue/json_builder.cpp:24-29 | performs the `StartArray` transition in place, or throws its message and changes nothing |
| JsonBuilder.Builder.EndArray | transport-catalogue/json_builder.cpp:31-40 | performs the `EndArray` transition in place, or throws its message and changes nothing |
| JsonBuilder.Builder.Key | transport-catalogue/json_builder.cpp:42-51 | performs the `Key` transition in place, or throws its message and changes nothing |
| JsonBuilder.Builder.Value | transport-catalogue/json_builder.cpp:53-71 | performs the `Value` transition in place, or throws its message and changes nothing |
| JsonBuilder.Builder.Build | transport-catalogue/json_builder.cpp:73-81 | returns the root iff nothing is open and the root is not null |

## Left out

- The geodesic formula of geo.h (floating-point trigonometry) is the parameter `arc`, truncated to int. Only its zero branch for EPSILON-equal points is modelled.
- Geo.Coordinates and Geo.SamePoint: latitude and longitude are exact reals and EPSILON is exactly 1e-6, so the EPSILON comparison of geo.h is exact. The rounding of the double subtraction and of the constant are not modelled; two points whose difference lies within rounding of EPSILON may compare differently in the source.
- The curvature (`distance / ComputeGeoRouteDistance`, a double division) is not stored, and `ComputeGeoRouteDistance` is not modelled.
- Catalogue.TransportCatalogue.AddBus: for a name not yet registered, requires every stop name to be known and a linear route not to have exactly one stop. For a new name the source dereferences a null pointer in the first case and starts its loop before `begin()` in the second; both are undefined behaviour. A registered name returns before either matters, and then any stops are allowed. `AddBuses`, `FeedBus` and `Process` ask the same of exactly the inputs that reach the new-name branch.
- Catalogue.TransportCatalogue.ComputeRouteDistance and Routes.SumDistances: the sum is an unbounded integer, so the 32-bit `int` overflow of a very long route is not modelled.
- Catalogue.TransportCatalogue.AddDistance: the meters are an int, so the `static_cast<int>` of the double argument is not modelled.
- The reader's own steps of `Process` are pure virtual in request_handler.h and are not part of this model: `ReadDocument`, `ParseDocument`, `CreateGraph` and `PrintAnswers`. Their containers are given to the `RequestInterface` constructor. `RenderMap`, `Serialize`, `Deserialize` and `TestingFilesOutput` are not part of this model either.
- `MapOutput` carries the interface's own catalogue pointer. It is the same for every answer, so only its id is kept.
- The order of `distances_`, an unordered_map, is the order of the rows given to the constructor.
- JsonParser.Stod and Json.Decimal: a double is the exact decimal its text denotes. The rounding to binary floating point and the range errors of `stod` are not modelled.
- JsonStream.Stream and JsonParser: a text is the C++ stream's byte sequence, one model character per byte in 0-255, and UTF-8 input is given byte by byte. Every `get`, `peek` and `>>` takes one byte, so a character the loaders take unchecked (the fifth character of `null`, the character after a comma in a dict, the colon, an unknown escape) is one byte of a multi-byte code point. Dafny's `char` is wider, and the model does not restrict the text to 0-255: a text holding a code point above 255 has no counterpart in the source.
- The stream is a text with a cursor. Its state flags are not modelled: every failing read happens at the end of the input, and `putback` always follows a successful read.
- When the first `input >> c` of `LoadArray` or `LoadDict` fails, `c` is read uninitialised. It is modelled as no character, which is neither ']' nor '}', so the loader throws.
- `json.h` is not part of this model. `Array` is taken as a vector of nodes and `Dict` as a map from strings to nodes.
- Printing of null, doubles, bools, arrays and dicts (`PrintValue` for those, `PrintNode`, `Print`) is not modelled. Neither is the layout of whitespace and newlines.
- The `Document` class and its assignment operators are not modelled; a document is its root node.
- JsonBuilder.Builder.Build: `std::move(root_)` leaves the builder's root moved-from; the model returns the root and leaves the builder unchanged.
- The router, the serialization, the map renderer, json_reader, main and the tests are not part of this model.
