# The SNMP sub-agent, verified

This project models the AgentX (RFC 2741) sub-agent of SONiC in Dafny and proves what it promises. Every function below follows
one piece of the Python code, branch by branch; where that code loops or updates an object in place, a `method` with the same
loop, or a `class` with the same fields, is proved equal to the function, and the theorems are about the function.
`dafny verify dfyconfig.toml` checks everything.

## What is modelled

**The MIB view** (`OidOrder`, `Mib`, `MibTheory`, `MibRange`, `MibWalk`, `ColumnWalk`, `ListColumns`). OIDs are sequences of
naturals in the order Python gives tuples. A table is a list of registered prefixes and a dictionary keyed by exactly those
prefixes; that the class builder always produces such a table is a subset type, `MibTable`. `MIBTable.get_next` is a search in
two phases: the rest of the column the start lies in, then the first later column that has a head below the end. The theorems
relate it to the flat question RFC 2741 asks: which is the least instance in an interval? `Orderly` collects the premises:
prefixes do not nest, iterators step to the next sub-id that has a value, values suit the type of their column.
`GetNextExactness` and `GetExactness` give the exact conditions under which the answers are the right ones, the right one being
given by name, type and handler value (`Describes`); `RangeSafeIff` says which ranges are right whatever the columns hold.
`WalkComplete` speaks of whole walks, and `WalkColumn` of walks through one column of a table about whose other columns nothing
is known. Progress and termination of walks need none of these premises, and `GapsSkipped` says what is left out where values
are missing.

**The wire codec** (`Struct`, `Encodings`, `Encodable`, `ItemLoops`, `Pdus`, `PduTheory`, `PduAlignment`, `WireLayout`). OIDs
with their compressed form, search ranges, octet strings, all thirteen kinds of binding, the header and the eleven PDU types, in
both byte orders. The loops that write and read the items of a PDU have one shape in three classes and are given once, for any
item format; `ReadBack` says for which byte budgets the read loop finds exactly the items that were written. On top stands the
decoder that peels PDUs off one buffer. `WireLayout` says of everything that is read or written at which byte it stands.

**The connection** (`Session`, `SessionTheory`, `ResponseTheory`, `SessionRuns`). `AgentX.data_received` and what it calls, as
steps over chunks, with the log of all bytes written since the Open PDU. `EndToEnd` joins codec and MIB view: from the bytes of
a chunk of requests to the decoded bytes of the responses; `AnswerableIff` says which requests obtain one, and
`EveryRequestAnswered` that all do over tables that fit the wire. `SessionSafety` and `RegistrationBlock` speak about every run
over arbitrary bytes.

**The physical-entity cache** (`EntityIndex`, `EntityCache`, `EntityTheory`, `EntityRuns`, `EntityColumns`, `EntityAttributes`,
`EntityUndo`, `EntityConfluence`, `EntityKeys`, `EntityListing`, `EntityContents`). The sorted list of entity indexes, the
attribute maps, the name map, the callbacks that wait for a parent's name and the indexes each database key owns. Conservation
and the walk theorem hold from any start, also where updates raise, as long as reinits get as far as clearing what the updaters
own; `ReinitConservedIff` says what happens otherwise. `DelUndoesSet` says what is left of an entity that comes and goes: its
descriptions. `Confluence` says that set messages may arrive in any order: its proof describes the cache point by point from the
set of keys handled so far (`Reflects`) and shows that a deferred fan enters later exactly what it would have entered at once.
`IndependentConfluence` builds what that description needs from the database and the keys, and `ReinitForgets` concludes that a
reinit depends neither on the cache before it nor on the order in which keys are listed. The decimal index packing is proved
injective through a decoder. `EntityContents` gives for every kind of entity the table of attributes it is to have, and proves
that it has them after an update, a callback, any sequence of messages and a reinit.

**Counters, ARP, schedule, text** (`Counters`, `CounterViews`, `Arp`, `Schedule`, `OidText`). One update cycle of the interface
counters with router-interface drops added in; the 32-bit view of one MIB beside the 64-bit view of another, each also described
from the database alone; the ARP column filled from two sources; the update loop of all updaters under arbitrary failures; OIDs
as text.

`None` (or `Raised`, or `ok == false`) stands for the exception the Python code raises at the same place.

## Where the code differs from what it says

* `MIBMeta` says that pushing to the front orders base classes left to right by priority. It orders them right to left
  (`BaseOrder`), and the last base also supplies the entry of a prefix defined twice (`LastBaseWins`).
* The documentation of `data_received` asks for `notOpen` and `parseError` responses. The code answers requests without looking at
  the session (`EndToEnd` holds in any state), and answers nothing to what it cannot decode or look up; nor does it go on with the
  rest of that chunk (`AnsweredIff`).
* `is_null_str` says it tells empty strings; it does not, and PSU attributes may be set to the empty string (`EmptyAttributeIff`).
* `remove_sub_ids` removes all data about an index except its description (`RemovalExact`).
* `get_next` tests the end of the range against the prefix of a later column, not against the name it returns, and not at all in the
  start's own column; a null end blocks all later columns instead of not bounding them (`EndInsideLaterColumn`,
  `EndIgnoredInOwnColumn`, `NullEndBlocks`). A scalar answers for every name below it, to Get and to an including GetNext
  (`BelowScalar`, `GetExactness`, `ScalarTailNotExact`).
* A key without a value makes `get_next` give up the rest of its column (`GapsSkipped`).
* A request with a context is read past its end, because the read loop does not count the context (`StatedLength`); a locally built
  request counts its header as payload (`LocalGetOverstates`); a Close PDU leaves its payload in the buffer
  (`CloseLeavesPayload`) and a TestSet PDU reads to the end of it (`TestSetDelimitedIff`).
* Sensor lanes from ten on run into the index range of the next sensor type (`WideLanesCollide`, `LaneBound`).
* The 32-bit counter of a LAG without an object id is absent although the 64-bit one is not (`LagWithoutId`, `ViewsAgreeIff`).
* An updater of the entity cache that raises before it clears what it owns leaves owners of entities that the list no longer holds
  (`ReinitConservedIff`). The update loop then skips messages and reinitializes again.

## Model

| member | source | states |
|---|---|---|
| OidOrder.Sandwich | src/ax_interface/mib.py:345-354 | everything between a prefix and one of its extensions extends the prefix, so one predecessor suffices to find a parent |
| OidOrder.ColumnsSeparate | src/ax_interface/mib.py:421-430 | if neither of two prefixes extends the other, all names below the smaller come before all names below the larger |
| OidOrder.NextInIsNext | src/sonic_ax_impl/mibs/ietf/rfc2737.py:502-511 | on a sorted list, duplicates allowed, the element at the bisect point is the least one after the argument, and there is none only at the end |
| OidOrder.InsortKeepsSorted | src/sonic_ax_impl/mibs/ietf/rfc2737.py:356-357 | inserting keeps the list sorted and adds exactly one copy |
| Mib.MakeClass | src/ax_interface/mib.py:142-171 | a class's dictionary is keyed by exactly its prefix list, and every entry knows its prefix, for any own entries and bases |
| Mib.BaseOrder | src/ax_interface/mib.py:160-166 | wherever the bases are split, prefixes of later bases precede those of earlier ones, and the class's own come last |
| Mib.LastBaseWins | src/ax_interface/mib.py:160-162 | the last base that defines a prefix supplies its entry, even against the class itself |
| Mib.ClassPrefixes | src/ax_interface/mib.py:142-171 | a class's prefix list is that of its bases, last base first, and then its own prefix followed by each own subtree, in order |
| Mib.OwnEntries | src/ax_interface/mib.py:142-171 | an own entry that no base defines has the type and handlers of its last declaration |
| Mib.GetNext | src/ax_interface/mib.py:402-461 | the two-phase loop computes the recursive search the theorems are about |
| MibTheory.ParentLookup | src/ax_interface/mib.py:345-354 | with prefixes that do not nest, the single test returns p if and only if p is registered and covers the OID |
| MibTheory.GetCases | src/ax_interface/mib.py:378-400 | with prefixes that do not nest, Get answers noSuchObject if none covers the name, noSuchInstance if the entry of the one that does yields nothing, and else what it yields |
| MibTheory.GetExactness | src/ax_interface/mib.py:378-400 | over orderly tables Get gives the answer section 7.2.3.1 of RFC 2741 asks for (the variable of exactly that name with the type and the very value its handler returned, noSuchInstance, noSuchObject) if and only if the name is not strictly below a scalar that has a value |
| MibTheory.TwoPhases | src/ax_interface/mib.py:402-461 | the answer is the binding of the least instance beyond the start, or endOfMibView, and which of the two depends only on where the end lies relative to that instance's column |
| MibTheory.GetNextExactIff | src/ax_interface/mib.py:402-461 | for starts not below a valued scalar, the answer of section 7.2.3.2 of RFC 2741 is given if and only if the end bound is honoured for the least instance beyond the start |
| MibTheory.GetNextExactness | src/ax_interface/mib.py:402-461 | the same over all starts and ends, with the wanted binding given by name, type and handler value alone: exact if and only if the end is honoured and the start is not taken for a scalar's instance |
| MibTheory.GetNextExact | src/ax_interface/mib.py:402-461 | the answer is exact whenever the start is below a non-null end that does not lie strictly inside a registered subtree |
| MibTheory.ScalarTailNotExact | src/ax_interface/mib.py:211-215 | a start with the include flag strictly below a valued scalar is always answered wrongly |
| MibTheory.TypecastExact | src/ax_interface/encodings.py:242-255 | putting a value into a binding fails exactly on values that do not suit the type and on the name 1.3.6.1; else the binding has that type, a zero reserved field, the name (less its first five sub-ids below 1.3.6.1.0), and the number, the octets with zero padding or the identifier that the handler returned |
| MibTheory.HandlersDecide | src/ax_interface/mib.py:298-304 | which names are variables and what value they have, by kind of entry; the value of an overlay goes before that of the column under it |
| MibRange.RangeSafeIff | src/ax_interface/mib.py:402-461 | knowing only the prefixes: every orderly table is answered rightly if and only if the end lies above the start's own subtree and not strictly inside a later one, or is null with no subtree above the start |
| MibRange.PlainEndIsSafe | src/ax_interface/mib.py:402-461 | the guard of `GetNextExact` is one of these safe cases |
| MibRange.EndIgnoredInOwnColumn | src/ax_interface/mib.py:417-419 | a table and range where an instance past the end is answered from the start's own column |
| MibRange.EndInsideLaterColumn | src/ax_interface/mib.py:427-453 | the same from a later column, whose prefix alone is compared with the end |
| MibRange.NullEndBlocks | src/ax_interface/mib.py:427-461 | the same table with a null end: the instance is not answered |
| MibRange.BelowScalar | src/ax_interface/mib.py:211-215 | one scalar, and a name below it that Get and an including GetNext both answer with the scalar's value |
| MibRange.NextWithValue | src/ax_interface/mib.py:365-376 | with missing values allowed anywhere: the next key of the start's column is answered if it has a value |
| MibRange.GapsSkipped | src/ax_interface/mib.py:369-372 | if it has none, the rest of that column is skipped, and so is every later column whose first key has none; the answer is the head of the first other column, if its prefix is below the end |
| MibWalk.AnswerOrigin | src/ax_interface/mib.py:365-376 | on any table, an answer other than endOfMibView is the value some entry has at the answered name, and the name was reached in one of three ways |
| MibWalk.GetConfirmsGetNext | src/ax_interface/mib.py:378-400 | Get answers the same binding for every name GetNext returned |
| MibWalk.GetNextAdvances | src/ax_interface/mib.py:417-453 | with no premise on values or nesting, an answer to a start without the include flag is strictly beyond it |
| MibWalk.WalkComplete | src/ax_interface/mib.py:402-461 | feeding each answered name back visits every instance between start and end exactly once, in ascending order, with its value, and then stops |
| MibWalk.WalkStops | src/ax_interface/mib.py:402-461 | any walk over a table with finitely many values stops, even where values are missing or prefixes nest |
| MibWalk.WalkAscends | src/ax_interface/mib.py:402-461 | the names of any walk ascend strictly |
| ColumnWalk.WalkColumn | src/ax_interface/mib.py:402-461 | in any table whose prefixes do not nest, whatever its other columns hold: a walk from a start inside a column that steps exactly, included or not, to an end (a null one too) below which no later subtree starts visits exactly the names from the start on, each once, in order, with its value, and stops |
| ListColumns.ListColumnExact | src/ax_interface/mib.py:227-260 | a column over a sorted list steps exactly if and only if its handler has a value precisely for the list's non-empty elements |
| ListColumns.ListWalk | src/ax_interface/mib.py:402-453 | in any table that registers such a column: a walk from a start inside it, included or not, to an end below which no later subtree starts visits every element from the start on once, in order, however often the list repeats it, and stops |
| Encodings.CompressionExact | src/ax_interface/encodings.py:48-72 | compressing a name and expanding it gives it back if and only if it is not below 1.3.6.1.0 |
| Encodings.OidRoundTrip | src/ax_interface/encodings.py:51-97 | decoding an encoded identifier gives it back whatever follows, and its size is the encoded length |
| Encodings.RangeRoundTrip | src/ax_interface/encodings.py:118-132 | the same for search ranges |
| Encodings.OctetsRoundTrip | src/ax_interface/encodings.py:141-188 | the same for octet strings with their padding |
| Encodings.VarBindRoundTrip | src/ax_interface/encodings.py:227-362 | for all thirteen value types and any trailing bytes, decoding an encoded binding gives it back with integers reduced to 32 or 64 bits, and its size is the encoded length |
| Encodings.EncodingsAligned | src/ax_interface/encodings.py:227-240 | the sizes of bindings and ranges are multiples of four |
| WireLayout.BindingWritten | src/ax_interface/encodings.py:309-325 | in plain arithmetic on byte positions: type code, reserved field, name and data of an encoded binding stand where section 5.4 of RFC 2741 puts them, integers modulo 2^32 or 2^64, in either byte order |
| WireLayout.TypeCodes | src/ax_interface/constants.py:41-53 | the thirteen type codes by number, and no other number is a type |
| WireLayout.DecodedLayout | src/ax_interface/pdu.py:74-171 | whatever the bytes, a PDU decoded from them has the header, context, ranges, bindings and fields that stand at the positions of section 6 of RFC 2741, most significant byte first exactly if bit 4 of the flags is set |
| WireLayout.EncodedLayout | src/ax_interface/pdu.py:74-130 | the PDUs that decode to themselves are written in those positions |
| WireLayout.HeaderWritten | src/ax_interface/pdu.py:110-114 | so is the header of every PDU |
| WireLayout.BareWritten | src/ax_interface/pdu_implementations.py:92-99 | Close, CommitSet, UndoSet and CleanupSet PDUs are bare headers, a TestSet PDU header and context |
| PduAlignment.PdusAligned | src/ax_interface/pdu.py:231-233 | every PDU that can be encoded, of any kind, takes a whole number of four-byte words, and so does its payload (section 6.1 of RFC 2741) |
| Encodable.BindingEncodes | src/ax_interface/encodings.py:309-325 | a well-formed binding can be encoded if and only if its identifiers, its reserved field and the length of its string fit |
| Pdus.HeaderRoundTrip | src/ax_interface/pdu.py:115-140 | a header is read back in the byte order its own flags name |
| ItemLoops.WriteItems | src/ax_interface/pdu_implementations.py:186-190 | the writing loop concatenates the encodings of all items, or fails if one fails |
| ItemLoops.ReadItems | src/ax_interface/pdu_implementations.py:168-177 | the reading loop, with its byte budget and its shrinking buffer, computes the recursive reader |
| ItemLoops.ReadBack | src/ax_interface/pdu_implementations.py:168-177 | it returns the written items and leaves what follows if and only if the budget reaches the last item and, unless nothing follows, does not exceed the total |
| Pdus.ReadStream | src/ax_interface/pdu.py:158-171 | the stream loop yields the PDUs up to the first that cannot be decoded |
| PduTheory.DecodeEncode | src/ax_interface/pdu.py:200-220 | decoding an encoded Open, Register, Get, GetNext, set-phase, Ping or Response PDU gives it back and consumes exactly its bytes |
| PduTheory.StreamInverse | src/ax_interface/pdu.py:158-171 | decoding the concatenation of any such PDUs, in any mixture of byte orders, gives the whole list back |
| PduTheory.RequestDelimitedIff | src/ax_interface/pdu_implementations.py:163-190 | a request decodes to itself in front of other bytes if and only if its length fits, and at the end of the buffer if and only if it is not too short |
| PduTheory.StatedLength | src/ax_interface/pdu_implementations.py:163-190 | a request that states its true payload length fits if and only if it has no context |
| PduTheory.LocalGetOverstates | src/ax_interface/pdu_implementations.py:179-184 | a locally built request states 20 bytes too many, so it decodes to itself only at the end of a buffer |
| PduTheory.LocalGetRanges | src/ax_interface/pdu_implementations.py:179-184 | each range of a locally built request ends at its start with the last sub-id one higher |
| PduTheory.CloseLeavesPayload | src/ax_interface/pdu_implementations.py:92-99 | a Close PDU always leaves its four payload bytes in front of what follows |
| PduTheory.TestSetDelimitedIff | src/ax_interface/pdu_implementations.py:321-329 | a TestSet PDU leaves what follows it if and only if nothing does |
| Session.MakeResponse | src/ax_interface/pdu_implementations.py:221-237 | the response loop puts one answer per search range, in order, under the request's header, for Get and GetNext |
| Session.AgentX.RegisterSubtrees | src/ax_interface/protocol.py:50-68 | the loop sets the session id and writes one registration per subtree, up to the first that cannot be encoded |
| Session.AgentX.ParseResponse | src/ax_interface/protocol.py:70-85 | the new state for every error code, with and without a session |
| Session.AgentX.DataReceived | src/ax_interface/protocol.py:124-145 | decoding and handling PDU by PDU has the effect of decoding the chunk and handling the list up to the first failure |
| SessionTheory.RequestsAnswered | src/ax_interface/protocol.py:124-145 | a chunk of well-formed requests makes the connection write the responses to those before the first without one, in order, and change nothing else |
| SessionTheory.ResponseMeaning | src/ax_interface/pdu_implementations.py:192-237 | a response decodes to a Response PDU without error under the request's header, with its own type and true length, carrying the table's answers as seen on the wire |
| ResponseTheory.LookupReturns | src/ax_interface/mib.py:356-461 | on a well-typed table no Get or GetNext raises |
| ResponseTheory.AnswerableIff | src/ax_interface/pdu_implementations.py:221-237 | a request obtains a response if and only if its lookups return, all bindings fit the wire and the response is below 2^32 bytes |
| ResponseTheory.EndToEnd | src/ax_interface/protocol.py:124-145 | from bytes to bytes: if a request of a chunk and those before it are answerable, its response stands in its place and decodes, under the request's header with its own type and length, to one binding per search range: the answer of `get` to a Get and of `get_next` to a GetNext, with integers reduced to wire width |
| ResponseTheory.AllAnsweredIff | src/ax_interface/protocol.py:129-139 | all n requests of a chunk are answered if and only if each is answerable |
| ResponseTheory.EveryRequestAnswered | src/ax_interface/protocol.py:129-139 | over a table whose names and values fit the wire, exactly n responses are written to n requests of bounded size, each as `EndToEnd` says |
| ResponseTheory.ResponsesExact | src/ax_interface/protocol.py:124-145 | over orderly tables each binding of a response is the answer section 7.2.3 of RFC 2741 asks for, under exactly the conditions of `GetExactness` and `GetNextExactness` |
| SessionTheory.ErrorCodes | src/ax_interface/protocol.py:70-85 | by number: error 0 opens the session, 256 does nothing, 266 closes the transport, any other raises, and all do nothing once there is a session |
| SessionTheory.OthersRaise | src/ax_interface/protocol.py:124-145 | a PDU that is neither Response, Get nor GetNext raises and has no effect |
| SessionTheory.RegistrationAt | src/ax_interface/protocol.py:54-66 | the i-th registration is for the i-th subtree with priority i |
| SessionTheory.RegistrationsComplete | src/ax_interface/protocol.py:54-66 | every subtree is registered if and only if every registration can be encoded |
| SessionTheory.RegisterEncodes | src/ax_interface/pdu_implementations.py:112-146 | a registration can be encoded if and only if its position is below 256, its OID fits the wire and the header announces no context |
| SessionTheory.RegisterMeaning | src/ax_interface/pdu_implementations.py:112-146 | a registration decodes to a Register PDU with the response's header, its own type and true length, for its subtree, with timeout 5, its position as priority and no range |
| SessionRuns.SessionSafety | src/ax_interface/protocol.py:50-85 | in every run over arbitrary chunks and tables: there is no session if and only if no error-free Response was handled; the first one handled sets the session id and causes one block of registrations; all else written is responses |
| SessionRuns.OpeningAt | src/ax_interface/protocol.py:70-82 | the opening Response is the first error-free one handled |
| SessionRuns.SessionKept | src/ax_interface/protocol.py:83-85 | once set, the session id never changes |
| SessionRuns.RegistrationBlock | src/ax_interface/protocol.py:54-66 | the block has one registration per subtree if and only if the opening Response announces no context, there are at most 256 subtrees and their names fit the wire (or there are none); the i-th one decodes to subtree i with priority i under the header of that Response |
| EntityIndex.DecodeIdOfPart | src/sonic_ax_impl/mibs/ietf/physical_entity_sub_oid_generator.py:90-170 | within bounds every index is positive, below 2^31, and a decoder reads the part back from it |
| EntityIndex.IndexDigits | src/sonic_ax_impl/mibs/ietf/physical_entity_sub_oid_generator.py:90-170 | every index in decimal digits |
| EntityIndex.SharedIndex | src/sonic_ax_impl/mibs/ietf/physical_entity_sub_oid_generator.py:99-129 | two parts share an index if and only if they are equal or are the chassis fan p and fan p of drawer p, or their tachometers |
| EntityIndex.WideLanesCollide | src/sonic_ax_impl/mibs/ietf/sensor_data.py:147-158 | lane 10 + n of one sensor type has the index of lane n of the next type, on every port |
| EntityIndex.LaneBound | src/sonic_ax_impl/mibs/ietf/sensor_data.py:147-158 | sensors with lanes below n have distinct offsets if and only if n is at most 10 |
| EntityCache.PhysicalTable.RemoveIds | src/sonic_ax_impl/mibs/ietf/rfc2737.py:359-391 | the removal loop updates list, attributes, names and waiting callbacks as the function does |
| EntityCache.PhysicalTable.UpdateNameToOidMap | src/sonic_ax_impl/mibs/ietf/rfc2737.py:405-417 | registering a name runs its waiting callbacks in order and drops them |
| EntityCache.PhysicalTable.Update | src/sonic_ax_impl/mibs/ietf/rfc2737.py:775-1081 | the five updaters change the object's state as the update function says, exceptions included |
| EntityCache.PhysicalTable.ReinitData | src/sonic_ax_impl/mibs/ietf/rfc2737.py:273-347 | every updater gets its turn even if others raise: before clearing what it owns, when listing its keys, or at one of them |
| EntityRuns.ReinitConservedIff | src/sonic_ax_impl/mibs/ietf/rfc2737.py:675-703 | from any state, a reinit leaves list and owners in step if and only if no updater that raised before clearing still owned anything |
| EntityRuns.EntityConservation | src/sonic_ax_impl/mibs/ietf/rfc2737.py:356-391 | in every run with a reinit after which all reinits clear, whatever raises otherwise, the list is sorted and holds, with multiplicity, exactly the chassis, its management node and all owned indexes |
| EntityTheory.DeletedIsGone | src/sonic_ax_impl/mibs/ietf/rfc2737.py:752-755 | after a del message an index only that entity owned is not returned by get_next |
| EntityTheory.ListedIffOwned | src/sonic_ax_impl/mibs/ietf/rfc2737.py:356-391 | while list and owners are in step, an index is listed if and only if it is the chassis, its management node or owned by some key |
| EntityUndo.RemovalExact | src/sonic_ax_impl/mibs/ietf/rfc2737.py:359-391 | removing indexes takes away all their attributes but the description, and from name map and waiting callbacks exactly what stands under their names; nothing else changes |
| EntityUndo.DelUndoesSet | src/sonic_ax_impl/mibs/ietf/rfc2737.py:717-755 | a del message right after the set message of a new entity of any kind restores list, owners, names, callbacks and every attribute but descriptions, if its indexes and names were free and it was not merely deferred |
| EntityColumns.AlwaysSuited | src/sonic_ax_impl/mibs/ietf/rfc2737.py:419-500 | in every run the numeric columns hold numbers and the others texts |
| EntityColumns.ReturnedIffOwned | src/sonic_ax_impl/mibs/ietf/rfc2737.py:502-511 | after any such run some get_next returns an index if and only if it is one of the two fixed nodes or some key owns it, so a deleted index stays away until a key owns it again |
| EntityColumns.EntityWalk | src/sonic_ax_impl/mibs/ietf/rfc2737.py:502-650 | after any such run, in any table that registers a column of the physical table: a walk from a start inside it to an end below which no later subtree starts lists every entity present from the start on exactly once, in order, and stops |
| EntityAttributes.EmptyAttributeIff | src/sonic_ax_impl/mibs/ietf/rfc2737.py:901-904 | a present PSU with an unused index gets an empty model or serial number if and only if the database field is empty |
| EntityColumns.EntityAnswer | src/sonic_ax_impl/mibs/ietf/rfc2737.py:513-640 | what a Get of an attribute of an entity answers: the attribute, or the default of its column, and noSuchInstance for an entity not listed |
| EntityContents.UpdateCarries | src/sonic_ax_impl/mibs/ietf/rfc2737.py:775-1081 | after a set message that goes through, in any state, each transceiver, PSU, drawer, fan, thermal, sensor and tachometer it enters carries its table: class, description, name, position, the index of its parent as container, replaceability, and versions, serial number, maker and model as far as the database knows them |
| EntityContents.CallbackCarries | src/sonic_ax_impl/mibs/ietf/rfc2737.py:405-417 | so do a fan and its tachometer that waited for their parent |
| EntityContents.LastCallbackShows | src/sonic_ax_impl/mibs/ietf/rfc2737.py:393-417 | of fans that waited for one parent at one position the last one deferred shows |
| EntityContents.WaitingInOrder | src/sonic_ax_impl/mibs/ietf/rfc2737.py:393-403 | fans of unknown parents wait in the order of their messages |
| EntityContents.RaisesIff | src/sonic_ax_impl/mibs/ietf/rfc2737.py:775-1081 | a set message raises if and only if, for its kind, type, position or parent is missing |
| EntityContents.AbsentIsDel | src/sonic_ax_impl/mibs/ietf/rfc2737.py:877-1081 | a set message about what is not present, or a thermal without temperature, does what a del message does |
| EntityContents.FanWaits | src/sonic_ax_impl/mibs/ietf/rfc2737.py:998-1005 | a fan whose parent has no index is appended to those waiting for it, and nothing else changes |
| EntityContents.NothingToDo | src/sonic_ax_impl/mibs/ietf/rfc2737.py:775-1081 | every other message without anything to enter leaves the cache as it is |
| EntityContents.MessagesCarry | src/sonic_ax_impl/mibs/ietf/rfc2737.py:717-755 | after set messages about independent keys in any order each of their entities with an index of its own carries its table |
| EntityContents.ReinitFixed | src/sonic_ax_impl/mibs/ietf/rfc2737.py:273-318 | after a reinit, whatever was there before, chassis and management node have exactly their attributes |
| EntityContents.ReinitHolds | src/sonic_ax_impl/mibs/ietf/rfc2737.py:273-347 | each entity of the listed keys with an index of its own has exactly the attributes of its table |
| EntityContents.ReinitNothingElse | src/sonic_ax_impl/mibs/ietf/rfc2737.py:273-347 | no other index has any attribute |
| EntityContents.ReinitLists | src/sonic_ax_impl/mibs/ietf/rfc2737.py:273-347 | the list has exactly the indexes of chassis, management node and the entities of the listed keys |
| EntityContents.ReinitNames | src/sonic_ax_impl/mibs/ietf/rfc2737.py:405-417 | the name map has the chassis, and PSUs and drawers under the indexes of their entities |
| EntityConfluence.CallbacksHold | src/sonic_ax_impl/mibs/ietf/rfc2737.py:1007-1037 | running waiting callbacks enters exactly what their fans would have entered had the parent been known |
| EntityConfluence.MessageReflects | src/sonic_ax_impl/mibs/ietf/rfc2737.py:877-1005 | handling one more message keeps the cache described by the set of keys handled |
| EntityConfluence.Confluence | src/sonic_ax_impl/mibs/ietf/rfc2737.py:393-417 | set messages about the same keys in any two orders end in the same list, owners and names, the same multisets of waiting callbacks, and the same attributes of every index that is not shared by several keys |
| EntityKeys.IndependentConfluence | src/sonic_ax_impl/mibs/ietf/rfc2737.py:393-417 | the same from premises on database, start and keys alone: messages do not raise and no two keys clash in name; if none clash in index, all attributes agree |
| EntityKeys.ClashingFansDiffer | src/sonic_ax_impl/mibs/ietf/rfc2737.py:1007-1037 | two fans with one index: in either order it is called by the fan that came last, so its attributes do depend on the order |
| EntityListing.ReinitForgets | src/sonic_ax_impl/mibs/ietf/rfc2737.py:273-347 | two reinits in which every updater lists its keys, from one database, from any two caches and with the independent keys listed in any two orders, end in the same cache in that sense |
| EntityKeys.PartsDecide | src/sonic_ax_impl/mibs/ietf/physical_entity_sub_oid_generator.py:90-170 | for keys within bounds, indexes clash if and only if the parts entered do, up to a chassis fan and the drawer fan it borrows from |
| Counters.InterfacesUpdater.AggregateCounters | src/sonic_ax_impl/mibs/ietf/rfc1213.py:361-383 | the two nested loops add drops to ports and let VLANs take over counters as the functions say |
| Counters.InterfacesUpdater.Update | src/sonic_ax_impl/mibs/ietf/rfc1213.py:253-291 | the counters after `update_data` are a function of the caches, the maps and the database |
| Counters.DropsConserved | src/sonic_ax_impl/mibs/ietf/rfc1213.py:253-374 | whatever was cached before, after an update a port's discards are its database value plus the errors of all router interfaces on it, and its other counters are the database's |
| Counters.DropsNeverPileUp | src/sonic_ax_impl/mibs/ietf/rfc1213.py:253-291 | the same after any number of cycles, with maps and database changing between them |
| Counters.VlanCounters | src/sonic_ax_impl/mibs/ietf/rfc1213.py:376-383 | after an update each of the six mapped counters of a VLAN interface is the database counter of its router interface, where that has one |
| Counters.VlanPairs | src/sonic_ax_impl/mibs/__init__.py:33-40 | the six pairs by name: octets, unicast packets and discards, in and out |
| CounterViews.PortView32 | src/sonic_ax_impl/mibs/ietf/rfc1213.py:386-440 | what the 32-bit view serves for a port, from the database alone: its counter, for discards with the errors of the router interfaces on it (in with in, out with out), modulo 2^32, and nothing exactly if it has neither |
| CounterViews.LagView32 | src/sonic_ax_impl/mibs/ietf/rfc1213.py:386-440 | what it serves for a LAG: the sum of that over its members plus, for discards, the errors of its own router interface if it has one, modulo 2^32; nothing exactly if a member has nothing or the LAG no object id |
| CounterViews.PortView64 | src/sonic_ax_impl/mibs/ietf/rfc2863.py:237-271 | what the 64-bit view serves for a port: the database's counter modulo 2^64, without router-interface errors |
| CounterViews.LagView64 | src/sonic_ax_impl/mibs/ietf/rfc2863.py:237-271 | and for a LAG: the sum over its members |
| CounterViews.OtherViews | src/sonic_ax_impl/mibs/ietf/rfc1213.py:386-405 | zero for the management interface, and nothing for what is no interface |
| CounterViews.GetCounter32 | src/sonic_ax_impl/mibs/ietf/rfc1213.py:386-440 | the accumulating loop of the 32-bit view, with every way to end without a value |
| CounterViews.ReadCounter | src/sonic_ax_impl/mibs/ietf/rfc2863.py:237-271 | the recursive read of the other view, for any mask and recursion limit |
| CounterViews.AbsentMember | src/sonic_ax_impl/mibs/ietf/rfc1213.py:407-418 | a LAG has no 32-bit value if any member lacks the counter |
| CounterViews.AbsentCounter | src/sonic_ax_impl/mibs/ietf/rfc2863.py:250-259 | nor a 64-bit value |
| CounterViews.MaskedSums | src/sonic_ax_impl/mibs/ietf/rfc2863.py:250-268 | masking each member before adding loses nothing modulo the width, in both views, and each sum is present exactly if the unmasked one is |
| CounterViews.ViewsAgreeIff | src/sonic_ax_impl/mibs/ietf/rfc1213.py:386-440 | after both updaters read one database, the 32-bit value of a port or LAG is the 64-bit value modulo 2^32, absent together, if and only if the LAG has an object id, or has no member list, or some member lacks the counter |
| CounterViews.AbsentTogether | src/sonic_ax_impl/mibs/ietf/rfc1213.py:407-422 | without a member list, or with a member that lacks the counter, both views are absent |
| CounterViews.LagWithoutId | src/sonic_ax_impl/mibs/ietf/rfc1213.py:422 | a configuration and database where the 64-bit view has seven octets and the 32-bit view nothing |
| Arp.ArpUpdater.UpdateData | src/sonic_ax_impl/mibs/ietf/rfc1213.py:109-119 | list and map after an update are those of the records of both sources in order, the list sorted |
| Arp.ArpListed | src/sonic_ax_impl/mibs/ietf/rfc1213.py:70-107 | a sub-id is listed if and only if it is that of an indexed IPv4 neighbour of the database (not eth0 on a multi-ASIC platform) or, on such a platform, of a line of the host's table |
| Arp.ArpCell | src/sonic_ax_impl/mibs/ietf/rfc1213.py:121-128 | a cell has a value exactly at listed keys: the MAC recorded last |
| Arp.ArpMac | src/sonic_ax_impl/mibs/ietf/rfc1213.py:70-128 | after an update a cell shows, on a multi-ASIC platform, the MAC of the last line of the host's table for its sub-id, else that of the last neighbour of the database shown under it, else nothing |
| Arp.ArpAfterUpdate | src/sonic_ax_impl/mibs/ietf/rfc1213.py:94-128 | after any update the column steps exactly, even if a neighbour came from both sources |
| Arp.ArpWalk | src/sonic_ax_impl/mibs/ietf/rfc1213.py:94-128 | in any table that registers the column: a walk from a start inside it to an end below which no later subtree starts lists every recorded neighbour from the start on once, in order, with its MAC, and stops |
| Schedule.MIBUpdater.Run | src/ax_interface/mib.py:39-67 | the loop with its two state variables makes exactly the calls the cycle function says, for any endings of those calls |
| Schedule.UpdateIff | src/ax_interface/mib.py:56-58 | a cycle calls `update_data` if and only if it is not due or it reinitialized |
| Schedule.UpdatesEveryCycle | src/ax_interface/mib.py:42-67 | while no reinitialization fails, every cycle calls it |
| Schedule.WithoutUpdate | src/ax_interface/mib.py:42-67 | a cycle that does not has tried to reinitialize and failed, and the next one tries again |
| Schedule.UpdateClears | src/ax_interface/mib.py:56-67 | a successful update leaves the flag clear, and without a RuntimeError it is never set |
| Schedule.ReinitWithin | src/ax_interface/mib.py:47-57 | whatever fails, one of every rate + 2 consecutive cycles calls `reinit_data`, or tries to reconnect first and fails |
| Schedule.NextDue | src/ax_interface/mib.py:47-57 | a failed reinit is retried in the next cycle, and after a successful one the next is due exactly rate + 2 cycles later |
| Schedule.ExactPeriod | src/ax_interface/mib.py:47-57 | while no reinit fails, reinits happen exactly in the multiples of rate + 2, even if updates fail |
| Schedule.FailureRemembered | src/ax_interface/mib.py:59-67 | the flag is set exactly while a RuntimeError has occurred and no update has succeeded since |
| Schedule.ReconnectIff | src/ax_interface/mib.py:49-53 | connections are reinitialized in exactly the due cycles with such an error behind them, and then data only if that succeeded |
| Schedule.RecoveryWithin | src/ax_interface/mib.py:42-67 | within rate + 2 cycles of a RuntimeError an update succeeds or a reconnect is attempted |
| OidText.StrRead | src/ax_interface/util.py:8-38 | the text of any identifier, the null one too, is read back as its tuple, and every text but the null one's is valid |
| OidText.ReadWithoutDot | src/ax_interface/util.py:20-38 | without its dot the text is read literally or below 1.3.6.1 as asked for, and with it refused where none is expected |
| OidText.ValidIff | src/ax_interface/util.py:41-68 | a text is valid if and only if it is some numbers with dots between them, after a dot where one is expected |

## Left out

- PDU constructors: PDUs are values, and a constructor that chomps its buffer is a function from the buffer to the PDU and the
  rest; only its loops, the stream loop and the response loops are methods. `Header` and `Body` therefore do not capture a PDU
  object that is changed after construction.
- Close, TestSet and context-carrying or locally built Get PDUs in front of other PDUs: excluded from `StreamInverse`, because the
  code does not delimit them; for requests the exact condition is `RequestDelimitedIff`. PDUs split across chunks are not
  reassembled by the code either.
- EntityCache.PhysicalTable.Update: the ten attribute maps are one map keyed by field and index, the five `entity_to_oid_map`s one
  map keyed by updater and database key, and one-element tuples are written as their number.
- EntityCache.PhysicalTable.ReinitData: reading the device metadata, between the maps and the list starting over, does not fail.
- EntityUndo.DelUndoesSet: a fan that was only deferred is not covered, because its del message leaves the callback waiting.
- EntityConfluence.Confluence: says nothing of the attributes of an index that several keys share, which do depend on the order
  (`ClashingFansDiffer`); starts without waiting callbacks, requires parents of PSUs and drawers to be known (an unknown one
  raises, which `UpdatePsu` and `UpdateDrawer` model), and is about set messages; nothing is claimed about removing a fan whose
  callback still waits, which the code does not cancel.
- EntityContents.UpdateCarries: of sensors of one transceiver that share an index (`WideLanesCollide`) nothing is claimed, and
  `MessagesCarry` and `ReinitHolds` claim nothing of an index that two keys share.
- CounterViews.ViewsAgreeIff: is about all counters but discards, of ports and of LAGs whose members are ports; to discards the
  32-bit view adds router-interface drops, which the 64-bit view does not have.
- Schedule.MIBUpdater.Run: sleeping, the dynamic frequency and the clock are not modelled; a run is the sequence of cycles made.
- Session.AgentX.DataReceived: logging, flow control and connection loss are not modelled, and writing to the transport does not fail.
- Mib.GetNext: handlers of scalars that raise, and an `OidMIBEntry` outside an overlay, are not modelled; data of a kind its type
  cannot hold fails when the binding is built rather than when it is encoded.
- Arp.ArpUpdater.UpdateData: the host's ARP table and the neighbour entries are inputs, with addresses already split into bytes.
- OidText.StrRead: digits other than 0 to 9, which Python also accepts, are not modelled.
- The order and names of transceiver sensors and all descriptions are given with the database; regular expressions are not modelled.
- `get_index_from_str`, `get_bridge_port_map` and the other functions of `sonic_py_common` and `swsscommon` are not part of this
  model; interface indexes are a given map, and the database is a given value.
- Redis connectors, subscriptions and their clean-up at reinit, asyncio, sockets, reconnection to the master agent and
  configuration parsing: input and output only.
- Vendor MIBs, bridge and LLDP tables, sensor values as floating-point numbers, routes, interface names, speeds and states: they
  would only add members of the kinds proved here.
