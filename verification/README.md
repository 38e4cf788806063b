# DHCPKit, verified

DHCPKit is a DHCPv6 server written in Python. This project models the parts of it that carry state,
recursion or concurrency, and proves what they promise:

- **The wire codec** (`Bytes`, `Wire`, `LeafCodec`, `Codec`, `CodecRoundTrip`, `CodecLoops`). Messages contain
  options, identity associations contain options, and a relay-message option contains a message again. Saving
  and loading undo each other at any depth, each direction with its exact condition. `CodecLoops` has the
  loading and saving methods with their loops; `Codec` says what they compute. `WireFormat` draws the octets of every
  message, option and DUID class with literal numbers, each field at its place, and proves that these are what is
  saved and loaded (`Arithmetic` has the number theory).
- **The MAP options** (`MapPrefix`, `MapCodec`, `MapRoundTrip`, `MapLoops`, `MapFormat`): prefixes cut to whole
  octets, left-aligned port-set ids, rules and bindings with sub-options.
- **Relay chains** (`RelayValues`, `RelayChain`, `RelayStore`, `RelayExact`). The reply chain is a heap structure:
  objects hold each other, handlers rewrite their option lists, and the innermost payload is overwritten in place.
- **The lease store** (`Exploded`, `LeaseTables`, `LeaseStore`, `LeaseRuns`, `LeaseExact`, `LeaseGrants`,
  `LeaseQuery`, `LeaseQueryExact`, `LeaseCounts`, `LeaseLife`). Five tables are changed by the transactions of many
  workers and by clean-ups; the proofs range over all interleavings. Addresses are compared as texts.
- **Answers to identity associations** (`Statuses`, `Answers`, `AnswerLoops`, `AnswersProof`, `AnswersByKind`,
  `AnswersGrant`, `AnswersHeld`, `AnswersGiven`, `AnswersExactly`): any number of static-assignment handlers, then
  the handlers for what is left over.
- **The rate limiter** (`RateLimit`), **TCP framing** (`TcpFraming`), **the CSV builder** (`CsvBuilder`,
  `CsvSolo`, `CsvOrder`, `CsvExact`, `CsvLimit`, `CsvTwins`, `CsvLoop`), where builders compete for one table,
  and **element classes** (`ElementClass`). `Collections` holds shared helpers.

Where the source works step by step there is a class or a method with loops, proved equal to a function; the
properties are then lemmas about that function. `WireFormat`, `MapFormat`, `RelayExact`, `LeaseExact`,
`LeaseQueryExact`, `AnswersHeld`, `AnswersGiven` and `AnswersExactly` say what these functions compute on the octets,
tables and options themselves, without the functions' own definitions. `dafny verify dfyconfig.toml` checks everything.

## What the proofs found

The model does what the code does, also where that differs from what its documentation says.

- A DUID or remote-id shorter than its fixed fields is read beyond its end and saved longer than it came in
  (`CodecRoundTrip.CutOffDuidGrows`). Buffers without such fields, and only those, are saved unchanged.
- A MAP container with fewer than five octets of options is saved but refused when it comes back
  (`MapRoundTrip.EmptyContainerIsRefused`).
- A relay that sends the largest hop count, 255, makes the server wrap its packet with 256. Then the relay chain
  cannot be saved and the lease is not remembered; all other packets' chains can (`RelayStore.RememberAndReload`).
- `CopyRelayOptionHandler(RelayMessageOption)`, which nothing in the repository builds, would send the client's
  own message back. A handler leaves the chain intact if and only if it is not that one
  (`RelayChain.HandlerKeepsTheChainIff`).
- `force_status` removes from the list it walks over and skips elements: it leaves one status exactly when no
  two status options are adjacent and one with the wanted code is the last (`Statuses.ForceStatusIsExact`).
  The response to a Confirm is always such a list.
- No relay-forward message with an echo-request or relay-id option passes validation
  (`ElementClass.EchoRequestAndRelayIdAreRefused`), so the echo-request handler never sees one.
- The count that `find_leases` reports is what its generator yields if and only if every matched client has a
  lease left at each clean-up in between (`LeaseCounts.CountIsExactIff`). One call and a later clean-up are
  enough to make it wrong (`LeaseCounts.CountCanBeWrong`).
- The CSV builder is exact exactly when builders with an equally new file agree with each other
  (`CsvExact.NewestBuilderIsExactIffTwinsAgree`).
- A builder keeps older ones out exactly when no newer file is empty. A builder with an empty file, forced or not,
  that counts before anyone has committed deletes what older builders commit
  (`CsvOrder.OlderBuilderIsShutOutIff`).
- Beside any older builders, at most 30% of the rows are deleted without force in every run exactly when the
  builder's file has rows, no newer file is empty, and no equally new file names an id that this one does not name
  (`CsvTwins.LimitHoldsIff`). A second run on the same file is harmless. A newer builder with an empty file that
  counts first lets an older one in, and then all rows can go; without one, 7 rows stay for every 10 deleted
  (`CsvTwins.SevenForTenHoldsIff`).

## Model

| member | source | states |
|---|---|---|
| CodecRoundTrip.OptionRoundTrip | dhcpkit/ipv6/options.py:524-569 | Loading a saved option anywhere in any buffer gives back an equal option tree and its exact size, whatever follows it |
| CodecRoundTrip.OptionsRoundTrip | dhcpkit/ipv6/options.py:543-567 | The same for a list of sub-options: the loop ends exactly where the saved list ends |
| CodecRoundTrip.ContainerRoundTrip | dhcpkit/ipv6/options.py:556-569 | The fixed fields and the sub-options of a saved container are read back and fill its length exactly |
| CodecRoundTrip.MessageRoundTrip | dhcpkit/ipv6/messages.py:210-255 | A saved message tree of any nesting depth parses back to itself, with its own length given or with none |
| CodecRoundTrip.SavedMessageComesBackIffProper | dhcpkit/ipv6/messages.py:44-54 | Of all messages that can be encoded, those that come back unchanged are exactly those whose codes, kinds and prefixes fit their classes |
| CodecRoundTrip.OptionRewrite | dhcpkit/ipv6/options.py:128-159 | Every parsed option is proper and saves to the octets it was read from exactly when no field in it is cut off, and to more octets otherwise |
| CodecRoundTrip.OptionsRewrite | dhcpkit/ipv6/options.py:543-554 | The same for a list of options that is parsed to its end |
| CodecRoundTrip.MessageRewrite | dhcpkit/ipv6/messages.py:432-481 | The same for a whole message, client, relay or unknown |
| CodecRoundTrip.ParsedBufferComesBackIffItFits | dhcpkit/ipv6/messages.py:210-255 | A buffer that is parsed in full is saved unchanged if and only if a walk over its lengths finds no field shorter than its fixed part |
| CodecRoundTrip.CutOffDuidGrows | dhcpkit/ipv6/duids.py:219-246 | A DUID shorter than its fixed fields reads octets behind it and is saved longer |
| Codec.ParseOption | dhcpkit/ipv6/options.py:128-159 | A successful parse uses exactly 4 plus the length field, and never goes past the buffer |
| Codec.ParseOptions | dhcpkit/ipv6/options.py:543-554 | The loop never stops short of its end, though its last option may run past it |
| Codec.HeaderRoundTrip | dhcpkit/ipv6/extensions/prefix_delegation.py:384-440 | The fixed fields of the five container options are read back as they were saved |
| Codec.HeaderRewrite | dhcpkit/ipv6/extensions/prefix_delegation.py:384-440 | Fixed fields that were accepted save to the same octets, and a prefix among them has no host bits |
| LeafCodec.DuidRoundTrip | dhcpkit/ipv6/duids.py:219-246 | A saved DUID of each of the four classes is read back |
| LeafCodec.DuidRewrite | dhcpkit/ipv6/duids.py:54-72 | A parsed DUID saves to its own octets exactly when it is as long as its fixed fields |
| LeafCodec.LeafRoundTrip | dhcpkit/ipv6/options.py:1035-1064 | Every option without sub-options is read back from its saved data |
| LeafCodec.LeafRewrite | dhcpkit/ipv6/options.py:1395-1432 | Every parsed option without sub-options is proper and saves to its own octets exactly when it is not cut off |
| LeafCodec.ClassesRoundTrip | dhcpkit/ipv6/options.py:1786-1831 | The length-prefixed list of a user-class or vendor-class option is read back |
| LeafCodec.ClassesRewrite | dhcpkit/ipv6/options.py:1786-1831 | A parsed list of classes fits its length fields and saves to the same octets |
| LeafCodec.VendorOptionsRoundTrip | dhcpkit/ipv6/options.py:2067-2116 | The code-and-length list of vendor-specific options is read back |
| LeafCodec.VendorOptionsRewrite | dhcpkit/ipv6/options.py:2067-2116 | A parsed list of vendor-specific options saves to the same octets |
| CodecLoops.LoadOptions | dhcpkit/ipv6/options.py:543-554 | The loop that appends options and advances the offset computes the list and size of the specification, errors included |
| CodecLoops.LoadOption | dhcpkit/ipv6/options.py:524-554 | Loading an option takes the branches of its class and finds the same value, size or error as the specification |
| CodecLoops.LoadMessage | dhcpkit/ipv6/messages.py:210-242 | Loading a message finds what `Codec.ParseMessage` specifies, with a length of 0 read as none given; `WireFormat.MessageIsLoaded` and `WireFormat.LoadedIsStandard` say what that is |
| CodecLoops.LoadClasses | dhcpkit/ipv6/options.py:1786-1815 | The loop over length-prefixed classes computes the specified list, or the error when it overruns |
| CodecLoops.LoadVendorOptions | dhcpkit/ipv6/options.py:2067-2100 | The loop over vendor options computes the specified list, or the error when it overruns |
| CodecLoops.StoreOptions | dhcpkit/ipv6/options.py:556-569 | Saving concatenates the options in order, and raises exactly when some length does not fit 16 bits |
| CodecLoops.StoreOption | dhcpkit/ipv6/options.py:1298-1309 | Saving an option raises exactly when a length in it does not fit 16 bits |
| CodecLoops.StoreMessage | dhcpkit/ipv6/messages.py:468-481 | Saving a message raises exactly when an option in it cannot be encoded |
| WireFormat.MessageIsFormat | dhcpkit/ipv6/messages.py:244-255 | A saved message is its type octet, then transaction id or hop count, link and peer address in that order, then its options, with literal numbers throughout |
| WireFormat.OptionIsFormat | dhcpkit/ipv6/options.py:116-126 | A saved option is its literal code, the length of its data and the data, each field at its literal place, at any depth |
| WireFormat.DuidIsFormat | dhcpkit/ipv6/duids.py:240-246 | A saved DUID is its literal type and its fields in order |
| WireFormat.MessageIsStandard | setup.py:93-144 | The messages that fit their classes are those of literal types 1 to 11 and 14 to 17, 12 and 13, or others without a class, whose options have the literal codes of their classes and prefixes without host bits |
| WireFormat.OptionIsLoaded | dhcpkit/ipv6/options.py:128-159 | Every such option whose lengths fit 16 bits is loaded from its octets, whatever follows |
| WireFormat.MessageIsLoaded | dhcpkit/ipv6/messages.py:44-54 | Every such message whose lengths fit 16 bits is loaded from its octets, as the class of its type |
| WireFormat.LoadedIsStandard | dhcpkit/ipv6/messages.py:210-242 | Everything that is loaded in full is such a message, and unless a field is cut off the buffer was just its octets |
| WireFormat.BareMessages | dhcpkit/ipv6/messages.py:44-54 | A type octet and three more load as a client-server message for the literal types 1 to 11 and 14 to 17; hop count, link and peer follow the types 12 and 13; any other type is unknown |
| MapPrefix.CutAndPad | dhcpkit/ipv6/extensions/map.py:246-248 | Cutting a network without host bits to ceil(length/8) octets and padding it back loses nothing |
| MapPrefix.PadAndCut | dhcpkit/ipv6/extensions/map.py:221-225 | The octets that were read are written back unless they carry host bits |
| MapPrefix.MaskedIsNetwork | dhcpkit/ipv6/extensions/map.py:212-225 | Masking clears every bit beyond the length and changes nothing exactly when there is none |
| MapPrefix.PsidFitsAndShiftsBack | dhcpkit/ipv6/extensions/map.py:742-754 | A left-aligned port-set id fits 16 bits exactly when it has the announced length, and always shifts back to itself |
| MapPrefix.RawPsidComesBack | dhcpkit/ipv6/extensions/map.py:732-740 | A word that was read gives an id of the announced length, and the same word back exactly when no lower bit is set |
| MapRoundTrip.MapOptionRoundTrip | dhcpkit/ipv6/extensions/map.py:180-263 | A saved MAP option, nested options included, is read back at any offset with anything behind it |
| MapRoundTrip.MapOptionsRoundTrip | dhcpkit/ipv6/extensions/map.py:228-236 | The same for a list of sub-options |
| MapRoundTrip.PrefixRoundTrip | dhcpkit/ipv6/extensions/map.py:421-467 | A saved domain rule prefix is read back with its exact size |
| MapRoundTrip.MapOptionRewrite | dhcpkit/ipv6/extensions/map.py:547-612 | A parsed MAP option is proper and saves to the octets it was read from exactly when no dropped bit or cut-off field is in it |
| MapRoundTrip.SavedMapOptionComesBackIffProper | dhcpkit/ipv6/extensions/map.py:706-754 | Of all MAP options that can be encoded, exactly those without host bits, with ids of the announced length and with containers of five octets or more come back unchanged |
| MapRoundTrip.ParsedMapOptionComesBackIffItFits | dhcpkit/ipv6/extensions/map.py:180-263 | Octets that are one MAP option are saved unchanged if and only if they carry no bits that parsing drops |
| MapRoundTrip.EmptyContainerIsRefused | dhcpkit/ipv6/extensions/map.py:776-816 | An empty container is saved and then refused, because loading asks for five octets |
| MapLoops.LoadMap | dhcpkit/ipv6/extensions/map.py:180-238 | Loading a MAP option finds the value, size or error of the specification, for each of the eight classes |
| MapLoops.LoadMaps | dhcpkit/ipv6/extensions/map.py:228-236 | The loop over sub-options computes the specified list |
| MapLoops.StoreMap | dhcpkit/ipv6/extensions/map.py:240-263 | Saving raises exactly when a shift is negative or a number does not fit its field |
| MapFormat.MapIsFormat | dhcpkit/ipv6/extensions/map.py:240-263 | A saved MAP option is its literal code, its length, its fixed fields at their places with prefixes cut to whole octets and ids shifted to the left, and its sub-options |
| MapFormat.MapIsStandard | dhcpkit/ipv6/extensions/map.py:742-754 | The MAP options that come back are those with literal limits: lengths up to 32 and 128 without host bits, ids below 2 to their length, five octets in a container |
| MapFormat.MapIsLoaded | dhcpkit/ipv6/extensions/map.py:590-612 | Each of these is loaded from its octets, whatever follows |
| RelayValues.SplitRelayChain | dhcpkit/ipv6/utils.py:13-36 | The request is the innermost message if it comes from a client, with all relays around it, closest to the client first, and otherwise there is nothing |
| RelayValues.UnwrapsOneResponse | dhcpkit/ipv6/messages.py:386-406 | A reply that unwraps through given relays contains exactly one response |
| RelayExact.SplitIsExact | dhcpkit/ipv6/utils.py:13-36 | Relays and request are found exactly when the message is the request in a relay-forward message of type 12 for each relay, each holding the one before as its first relayed message |
| RelayExact.FirstRelayedIff | dhcpkit/ipv6/messages.py:352-366 | The relayed message is that of the first relay-message option |
| RelayExact.DirectionOfEachKind | dhcpkit/ipv6/messages.py:484-635 | Which literal message types go to the server and which to the client; no client-server message goes both ways |
| RelayChain.GetRelayed | dhcpkit/ipv6/messages.py:352-366 | The getter finds the message in the one relay-message option |
| RelayChain.SetRelayed | dhcpkit/ipv6/messages.py:368-384 | The setter overwrites the first relay-message option in place, or appends a new one |
| RelayChain.WrapResponse | dhcpkit/ipv6/messages.py:612-635 | For a chain around a request, the reply chain has one fresh matching object for each relay, nested in order around the response |
| RelayChain.Unchain | dhcpkit/ipv6/server/transaction_bundle.py:198-210 | Walking the chain inwards lists every object once, closest to the client first |
| RelayChain.Bundle.CreateOutgoingRelayMessages | dhcpkit/ipv6/server/transaction_bundle.py:198-210 | Afterwards there is one outgoing relay message for each incoming one, properly chained |
| RelayChain.Bundle.SetResponse | dhcpkit/ipv6/server/transaction_bundle.py:121-138 | Afterwards the new response is the first and every other one is what it was; without a response there is none |
| RelayChain.CopyRelayOption | dhcpkit/ipv6/server/handlers/basic_relay.py:25-41 | Afterwards the reply's options of the class are exactly those of the incoming relay and come first, all other entries stand in their order, and the relay-message option is the same for any other class |
| RelayChain.CopiedRelayEntries | dhcpkit/ipv6/server/handlers/basic_relay.py:25-41 | Copying any class but the relay-message option leaves that option alone |
| RelayChain.CopyingTheRelayOptionReplacesTheResponse | dhcpkit/ipv6/server/handlers/basic_relay.py:25-41 | Copying the relay-message option itself, a misuse, would put the client's message in place of the response |
| RelayChain.HandlerKeepsTheChainIff | dhcpkit/ipv6/server/handlers/basic_relay.py:13-41 | A relay handler leaves the relay-message option alone for every relay and every list of options if and only if it does not copy that very option |
| RelayChain.EchoRelayOptions | dhcpkit/ipv6/server/extensions/relay_echo_request.py:40-69 | The nested loops append the requested options in order, skip classes the reply has, and stop at the first one it may not contain |
| RelayChain.EchoedRelayEntries | dhcpkit/ipv6/server/extensions/relay_echo_request.py:40-69 | No echo request can add a second relay-message option, and what was there stays in front |
| RelayExact.EchoedExactly | dhcpkit/ipv6/server/extensions/relay_echo_request.py:40-69 | Afterwards an option of a code is in the reply if and only if it was before, or the relay sent one, it may go back, and nothing requested earlier stops the work |
| RelayExact.EchoedMembers | dhcpkit/ipv6/server/extensions/relay_echo_request.py:40-69 | All that is added comes from the relay, and of a code that is added no option is left out |
| RelayExact.MayContainIff | dhcpkit/ipv6/options.py:2450-2454 | What may go back to a relay, by literal codes: 9, 11, 18, 37, 38, 79 and codes without a class |
| RelayExact.InterfaceIdComesBack | dhcpkit/ipv6/server/handlers/interface_id.py:13-19 | The Interface-Id that a relay sent comes back to it in front of the reply, and no other one with it |
| RelayChain.Bundle.RunHandler | dhcpkit/ipv6/server/handlers/__init__.py:124-143 | Each outgoing relay message is rewritten with its own incoming counterpart, and the chain stays valid |
| RelayChain.TreeUnwraps | dhcpkit/ipv6/messages.py:468-481 | What saving reads along a valid chain unwraps through every relay, hop count, link and peer matching, to the response |
| RelayChain.Bundle.Wrap | dhcpkit/ipv6/server/transaction_bundle.py:245-252 | Putting a response into the existing chain yields a message that unwraps to just that response |
| RelayChain.Bundle.OutgoingMessages | dhcpkit/ipv6/server/transaction_bundle.py:227-255 | One message for every response a server may send, each unwrapping through all incoming relays to its own response |
| RelayChain.Transact | dhcpkit/ipv6/server/message_handler.py:273-288 | Whatever handlers run and however often the response is replaced, what is sent answers every relay as section 20.3 of RFC 3315 asks, around the current response |
| RelayStore.StoredKeepsTheRelays | dhcpkit/ipv6/server/extensions/leasequery/__init__.py:300-330 | The stored chain has as many relays, with their hop counts, addresses and storable options in order, and nothing inside the innermost |
| RelayExact.StorableIff | dhcpkit/ipv6/server/extensions/leasequery/__init__.py:131-144 | An option is stored if and only if its code is not configured as sensitive and not one of ten literal codes |
| RelayExact.StorableExactly | dhcpkit/ipv6/server/extensions/leasequery/__init__.py:131-144 | All storable options of a list are kept, in order |
| RelayStore.EncodeRelayMessages | dhcpkit/ipv6/server/extensions/leasequery/__init__.py:300-330 | The loop that puts each copy into the one before saves exactly the stored chain, and nothing for no relay-forward |
| RelayStore.DecodeRelayMessages | dhcpkit/ipv6/server/extensions/leasequery/__init__.py:332-343 | Decoding gives nothing for no data and otherwise what the data parses to |
| RelayStore.StoredIsProper | dhcpkit/ipv6/server/extensions/leasequery/__init__.py:131-144 | What could be sent can be stored, and takes no more room |
| RelayStore.StoreAndReload | dhcpkit/ipv6/server/extensions/leasequery/__init__.py:300-343 | What comes back has the relays that went in, their hop counts, addresses and storable options in order, and never the client's own message |
| RelayStore.RememberRelays | dhcpkit/ipv6/server/worker.py:100-117 | Saving the chain around a received packet raises when the hop count the server gives itself does not fit an octet, and else saves the stored chain |
| RelayStore.RememberAndReload | dhcpkit/ipv6/server/worker.py:100-117 | The relays of a received packet can be stored and come back if and only if it is not from a relay with hop count 255 |
| RelayStore.RelayDataOfStored | dhcpkit/ipv6/server/extensions/leasequery/__init__.py:345-369 | An answer names the outermost real relay and what was stored of it, or nothing without one |
| RelayStore.EncodeOptions | dhcpkit/ipv6/server/extensions/leasequery/__init__.py:270-280 | Encoding saves the storable options in order |
| RelayStore.DecodeOptions | dhcpkit/ipv6/server/extensions/leasequery/__init__.py:282-298 | Decoding parses options until the data ends, or fails as parsing does |
| RelayStore.StoreAndReloadOptions | dhcpkit/ipv6/server/extensions/leasequery/__init__.py:270-298 | A list of options comes back from the store as its storable options in order |
| RelayStore.StoredOptionsComeBack | dhcpkit/ipv6/server/extensions/leasequery/__init__.py:270-298 | Decoding an encoded list gives back its storable options in order |
| Exploded.TextOrder | dhcpkit/ipv6/server/extensions/leasequery/sqlite.py:595-599 | Comparing exploded addresses as 39-character texts is comparing 128-bit numbers |
| Exploded.TextBetween | dhcpkit/ipv6/server/extensions/leasequery/sqlite.py:635-637 | A BETWEEN on texts holds exactly for the addresses of the numeric range |
| Exploded.TextAt | dhcpkit/ipv6/server/extensions/leasequery/sqlite.py:595-599 | The text has 32 lower-case hexadecimal digits from the highest down, with a colon after every fourth |
| LeaseTables.ApplyKeeps | dhcpkit/ipv6/server/extensions/leasequery/sqlite.py:397-572 | Every transaction keeps the store consistent: clients unique, child rows with a client, one owner for each address, no overlap between clients' prefixes |
| LeaseTables.CleanedKeeps | dhcpkit/ipv6/server/extensions/leasequery/sqlite.py:677-686 | So does a clean-up |
| LeaseTables.LeasingAddresses | dhcpkit/ipv6/server/extensions/leasequery/sqlite.py:461-514 | An update gives each leased address the new deadlines, keeps the client's other unexpired rows, and takes away other clients' rows only for re-leased addresses |
| LeaseTables.LeasingPrefixes | dhcpkit/ipv6/server/extensions/leasequery/sqlite.py:516-572 | The same for prefixes, where every overlapping row of another client goes |
| LeaseTables.LastLeaseWins | dhcpkit/ipv6/server/extensions/leasequery/sqlite.py:469-472 | Of several leases of one address in a reply the last one counts |
| LeaseTables.LastPrefixLeaseWins | dhcpkit/ipv6/server/extensions/leasequery/sqlite.py:524-527 | The same for prefixes |
| LeaseTables.CleaningUp | dhcpkit/ipv6/server/extensions/leasequery/sqlite.py:677-686 | After a clean-up exactly those leases are left, unchanged, of which one deadline at least has not passed, and exactly those clients that have such a lease, with their identifiers |
| LeaseTables.ReplacingIds | dhcpkit/ipv6/server/extensions/leasequery/sqlite.py:397-459 | Replacing identifiers leaves exactly the given set for the client and changes nobody else's |
| LeaseStore.SynchroniseIds | dhcpkit/ipv6/server/extensions/leasequery/sqlite.py:397-427 | The loops that delete, strike off and insert have the effect of the simple replacement, duplicates or not |
| LeaseStore.LeaseAddresses | dhcpkit/ipv6/server/extensions/leasequery/sqlite.py:476-514 | Updating own rows, deleting foreign and expired ones and inserting new ones has the effect of one leasing, or fails on the foreign key |
| LeaseStore.LeasePrefixes | dhcpkit/ipv6/server/extensions/leasequery/sqlite.py:531-572 | The same for prefixes |
| LeaseStore.Store.GetClientRowId | dhcpkit/ipv6/server/extensions/leasequery/sqlite.py:360-382 | Finds the one row of this client on this link, and creates it when asked to and missing |
| LeaseStore.Store.TouchAndReplaceRemoteIds | dhcpkit/ipv6/server/extensions/leasequery/sqlite.py:384-427 | One transaction records the contact and the remote-ids, or neither when the client row is gone |
| LeaseStore.Store.ReplaceRelayIds | dhcpkit/ipv6/server/extensions/leasequery/sqlite.py:429-459 | One transaction replaces the relay-ids, or fails and changes nothing |
| LeaseStore.Store.UpdateAddressLeases | dhcpkit/ipv6/server/extensions/leasequery/sqlite.py:461-514 | One transaction leases the addresses, or fails and changes nothing |
| LeaseStore.Store.UpdatePrefixLeases | dhcpkit/ipv6/server/extensions/leasequery/sqlite.py:516-572 | One transaction leases the prefixes, or fails and changes nothing |
| LeaseStore.Store.CleanUp | dhcpkit/ipv6/server/extensions/leasequery/sqlite.py:677-686 | One transaction removes exactly the leases past both deadlines and the clients it leaves without one, with their identifiers |
| LeaseRuns.EveryRunIsSound | dhcpkit/ipv6/server/extensions/leasequery/sqlite.py:74-117 | In every state that any interleaving of workers' transactions, calls cut short and clean-ups reaches, the store is consistent and workers hold rows of their own clients |
| LeaseGrants.EveryLeaseWasGranted | dhcpkit/ipv6/server/extensions/leasequery/sqlite.py:74-117 | In every such state an address or a prefix is recorded for a client only if a call was given that lease for it on that link |
| LeaseRuns.UndisturbedCall | dhcpkit/ipv6/server/extensions/leasequery/sqlite.py:74-117 | A call that nothing interrupts leaves one row for the client with the time, options and relay data of the call, exactly the reported identifiers, and every lease as its own |
| LeaseRuns.RowOutlivesWorkers | dhcpkit/ipv6/server/extensions/leasequery/sqlite.py:677-686 | Only a clean-up can remove the row a worker holds |
| LeaseExact.CallTakesItsRow | dhcpkit/ipv6/server/extensions/leasequery/sqlite.py:86-108 | A call works on the row of its client and link; a missing row is made just for a call with leases, and nothing else changes |
| LeaseExact.TouchingIsExact | dhcpkit/ipv6/server/extensions/leasequery/sqlite.py:384-427 | The first transaction sets time, options and relay data of that row and the client's remote-ids, and nothing else |
| LeaseExact.RelayIdsAreExact | dhcpkit/ipv6/server/extensions/leasequery/sqlite.py:429-459 | The second one sets the client's relay-ids, and nothing else |
| LeaseExact.AddressesAreExact | dhcpkit/ipv6/server/extensions/leasequery/sqlite.py:461-514 | Afterwards the client has the leased addresses and its own with validEnd >= now, others have what they had without the leased ones, and no other table changes |
| LeaseExact.PrefixesAreExact | dhcpkit/ipv6/server/extensions/leasequery/sqlite.py:516-572 | The same for prefixes as ranges of 128-bit numbers, where others lose each range that has a number in common with a leased one |
| LeaseExact.NothingForAMissingClient | dhcpkit/ipv6/server/extensions/leasequery/sqlite.py:677-686 | A transaction for a client that a clean-up has removed changes nothing |
| LeaseQuery.AddressQueryIsExact | dhcpkit/ipv6/server/extensions/leasequery/sqlite.py:238-267 | In a consistent store an address query finds exactly the clients that hold the address or a prefix around it, on the link if one is given |
| LeaseQuery.AtMostTwoHolders | dhcpkit/ipv6/server/extensions/leasequery/sqlite.py:238-267 | Without a link these are at most two |
| LeaseQuery.AddressQueryInEveryRun | dhcpkit/ipv6/server/extensions/leasequery/sqlite.py:238-267 | In every reachable store an address query finds exactly the holders, and at most two without a link |
| LeaseQueryExact.ClientIdQueryIsExact | dhcpkit/ipv6/server/extensions/leasequery/sqlite.py:269-290 | A query of type 2 finds exactly the clients with the identifier, on the link if one is given |
| LeaseQueryExact.RelayIdQueryIsExact | dhcpkit/ipv6/server/extensions/leasequery/sqlite.py:292-316 | A query of type 3 finds exactly the clients recorded with the relay-id, on the link if one is given |
| LeaseQueryExact.LinkQueryIsExact | dhcpkit/ipv6/server/extensions/leasequery/sqlite.py:318-332 | A query of type 4 finds exactly the clients on the link, or all without one |
| LeaseQueryExact.RemoteIdQueryIsExact | dhcpkit/ipv6/server/extensions/leasequery/sqlite.py:334-358 | A query of type 5 finds exactly the clients recorded with the remote-id, on the link if one is given |
| LeaseQuery.OtherQueriesFindNothing | dhcpkit/ipv6/server/extensions/leasequery/sqlite.py:119-149 | Exactly the types outside 1 to 5 are unsupported, and exactly the types 1, 2, 3 and 5 without their option are malformed |
| LeaseQueryExact.ClientIsFoundAgain | dhcpkit/ipv6/server/extensions/leasequery/sqlite.py:292-316 | After a call the client is found by its identifier, each reported relay-id and remote-id and its link, and by a query of these four types for nothing else |
| LeaseQueryExact.DataIsExact | dhcpkit/ipv6/server/extensions/leasequery/sqlite.py:151-236 | What is reported of a client: its identifier and link, the time since its last call, and exactly its addresses and prefixes with validEnd > now, each with its time left or 0 |
| LeaseQuery.FoundRowsExist | dhcpkit/ipv6/server/extensions/leasequery/sqlite.py:269-358 | Every kind of query finds only clients that exist |
| LeaseQuery.LeaseIsFoundAgain | dhcpkit/ipv6/server/extensions/leasequery/sqlite.py:151-236 | A remembered lease is found by its address while it is valid, and reported with just the time that is left |
| LeaseQuery.GenerateClientData | dhcpkit/ipv6/server/extensions/leasequery/sqlite.py:151-236 | The generator reports on each matched client that still exists once, its leases read from the store as it is by then |
| LeaseQuery.BulkMessages | dhcpkit/ipv6/server/transaction_bundle.py:258-296 | The list of messages is the reply with the first lease and then what the generator of the others yields |
| LeaseQuery.GenerateDataMessages | dhcpkit/ipv6/server/extensions/leasequery/__init__.py:405-420 | One data message for each remaining lease, then the done message, all with the transaction id |
| LeaseQuery.HandleBulk | dhcpkit/ipv6/server/extensions/leasequery/__init__.py:422-470 | With n of the matched clients left the answer is a reply, n - 1 data messages and a done message, each client once; none found, none left (status 11), a query without its key (status 8) and an unsupported type have their own answers |
| LeaseLife.LeaseStaysIff | dhcpkit/ipv6/server/extensions/leasequery/sqlite.py:476-514 | In every run a recorded address stays with its client until it is leased to another one, an update of its own client finds it expired, or a clean-up does, and nothing else ends it |
| LeaseLife.LeaseIsFoundUntilTakenAway | dhcpkit/ipv6/server/extensions/leasequery/sqlite.py:238-267 | Until then its client is found by the address |
| LeaseCounts.RowSurvivesIff | dhcpkit/ipv6/server/extensions/leasequery/sqlite.py:677-686 | In every run a client row survives if and only if at each clean-up the client has a lease with a deadline not yet passed |
| LeaseCounts.CountIsExactIff | dhcpkit/ipv6/server/extensions/leasequery/sqlite.py:119-149 | In every run the generator yields as many clients as were counted if and only if every matched client has a lease left at each clean-up in between |
| LeaseCounts.CountIsExactAmongWorkers | dhcpkit/ipv6/server/extensions/leasequery/sqlite.py:119-149 | Without a clean-up in between it yields exactly those counted, whatever workers do |
| LeaseCounts.CountIsExactAcrossACleanUp | dhcpkit/ipv6/server/extensions/leasequery/sqlite.py:677-686 | With one clean-up the count is right if and only if every matched client has a lease that has not run out by then |
| LeaseCounts.CountCanBeWrong | dhcpkit/ipv6/server/extensions/leasequery/sqlite.py:119-149 | After one call and a clean-up when its lease has run out, one client was counted and none is yielded |
| LeaseCounts.HandleBulkInRun | dhcpkit/ipv6/server/extensions/leasequery/__init__.py:422-470 | A bulk query that matches n clients sends n + 1 messages if and only if each of them has a lease left at each clean-up before the generator reads; without a clean-up it always does |
| Statuses.ForceStatus | dhcpkit/ipv6/server/handlers/utils.py:8-30 | The loop over the list it changes skips the element behind each one it removes |
| Statuses.ForceStatusIsExact | dhcpkit/ipv6/server/handlers/utils.py:8-30 | It leaves exactly one status if and only if no status stands directly behind another and one with the wanted code is the last |
| Statuses.AdjacentStatusesSurvive | dhcpkit/ipv6/server/handlers/utils.py:8-30 | Two wrong statuses in a row become a wrong and a right one |
| AnswerLoops.Bundle.MarkHandled | dhcpkit/ipv6/server/transaction_bundle.py:140-148 | Exactly this option is marked besides those that were, no option twice, and their order is kept |
| AnswerLoops.Bundle.GetUnhandledOptions | dhcpkit/ipv6/server/transaction_bundle.py:150-158 | The options of the wanted kinds that are not marked, in order |
| AnswerLoops.FindIaNaForAddress | dhcpkit/ipv6/server/extensions/static_assignments/__init__.py:55-72 | The IA that asks for the address, or else the first one |
| AnswerLoops.FindIaPdForPrefix | dhcpkit/ipv6/server/extensions/static_assignments/__init__.py:74-91 | The IA that asks for the prefix, or else the first one |
| AnswerLoops.HandleRequest | dhcpkit/ipv6/server/extensions/static_assignments/__init__.py:108-150 | At most one prefix and one address are assigned, each to an open IA that is then marked |
| AnswerLoops.HandleConfirm | dhcpkit/ipv6/server/extensions/static_assignments/__init__.py:152-170 | Marks exactly the open IAs with the assigned address and answers nothing |
| AnswerLoops.HandleRenewRebind | dhcpkit/ipv6/server/extensions/static_assignments/__init__.py:172-223 | Answers every open IA_NA and every open IA_PD with a prefix that overlaps its own, renewing what is assigned and withdrawing the rest |
| AnswerLoops.HandleReleaseDecline | dhcpkit/ipv6/server/extensions/static_assignments/__init__.py:225-246 | Marks exactly the open IAs it recognises and answers nothing |
| AnswerLoops.HandleStaticAssignment | dhcpkit/ipv6/server/extensions/static_assignments/__init__.py:93-106 | Dispatches on the kind of request |
| AnswerLoops.HandleUnansweredIa | dhcpkit/ipv6/server/handlers/unanswered_ia.py:28-128 | Appends the proper refusal for each open IA in order, or responds to nothing when it is not authoritative and would have to reject a Confirm or Rebind |
| AnswerLoops.HandleUnansweredPd | dhcpkit/ipv6/server/extensions/prefix_delegation.py:36-97 | The same for prefixes |
| AnswerLoops.AddMissingStatus | dhcpkit/ipv6/server/handlers/status_option.py:17-38 | Afterwards a Confirm, Release or Decline has a status; the old response stands in front, its identity associations are the same, and nothing is added where one was or none is needed |
| AnswerLoops.Process | dhcpkit/ipv6/server/message_handler.py:278-284 | All handlers in their order compute the specified answer, or none when the server must not respond |
| AnswersProof.EveryIaIsAnsweredOnce | dhcpkit/ipv6/server/handlers/unanswered_ia.py:28-128 | A validated Solicit, Request, Renew or Rebind always gets a response from an authoritative server, and whenever there is one, with any handlers, it has exactly one IA of the same kind and IAID for each one requested, and no other |
| AnswersProof.AllAssignedKeepStep | dhcpkit/ipv6/server/extensions/static_assignments/__init__.py:93-223 | After any handlers the IAs answered are exactly those marked as handled, once each |
| AnswersExactly.SilentIff | dhcpkit/ipv6/server/handlers/unanswered_ia.py:47-83 | There is no answer if and only if a Confirm holds no address or prefix, or the server is not authoritative and a Confirm has an unmarked IA_NA or IA_TA or a Rebind an unmarked IA |
| AnswersExactly.UnmarkedIsToldOff | dhcpkit/ipv6/server/handlers/unanswered_ia.py:34-128 | In every answer each IA that no handler marked is told off: status 2 or 6 to a Solicit or Request; for a Renew or Rebind every address or prefix it held, in order, with lifetimes 0, or status 3, by kind and authority; status 3 to a Release or Decline |
| AnswersExactly.ConfirmIsToldOff | dhcpkit/ipv6/server/handlers/unanswered_ia.py:47-65 | The one status of the answer to a Confirm is 4 if an IA with addresses is left and 0 otherwise |
| AnswersExactly.StatusIsAdded | dhcpkit/ipv6/server/handlers/status_option.py:17-38 | Exactly a Confirm, Release or Decline without a status gets one, 0, at the end |
| AnswersByKind.NoBindingForTheUnrecognised | dhcpkit/ipv6/server/extensions/static_assignments/__init__.py:225-246 | A Release or Decline gets a NoBinding IA for exactly the IAs no handler recognises |
| AnswersByKind.ConfirmHasOneStatus | dhcpkit/ipv6/server/handlers/unanswered_ia.py:47-65 | A Confirm gets exactly one status for any number of IAs: NotOnLink if some IA_NA or IA_TA was left, Success otherwise |
| AnswersByKind.RapidCommitPost | dhcpkit/ipv6/server/handlers/rapid_commit.py:34-74 | The two loops upgrade the response unless an IA is open or refused and rejections are off |
| AnswersExactly.RapidCommitIff | dhcpkit/ipv6/server/handlers/rapid_commit.py:39-74 | The response is changed if and only if rapid commit is allowed, the query is a Solicit with Rapid Commit, the response is of type 2, and rejections are on or every IA is marked and none answered with a first status of 2 or, for an IA_PD, 6; then it is type 7 with Rapid Commit in front |
| AnswersByKind.RapidCommitAssignsEverything | dhcpkit/ipv6/server/handlers/rapid_commit.py:34-74 | With rejections off, a Solicit is upgraded exactly when every IA was assigned; then no refusal is in it, and it keeps the transaction id and all Advertise options in order behind Rapid Commit |
| AnswersGrant.OnlyAssignmentsAreGranted | dhcpkit/ipv6/server/extensions/static_assignments/__init__.py:108-223 | No reply gives an address or prefix a lifetime that no handler assigned |
| AnswersGrant.RenewalKeepsAddresses | dhcpkit/ipv6/server/extensions/static_assignments/__init__.py:206-223 | A renewed IA reports on the same addresses in order, and only the assigned one keeps a lifetime |
| AnswersGrant.AssignmentPrefersTheAsking | dhcpkit/ipv6/server/extensions/static_assignments/__init__.py:55-72 | The address goes to the first IA that asked for it if one did, and otherwise to the first open one |
| AnswersGiven.AssignmentIsExact | dhcpkit/ipv6/server/extensions/static_assignments/__init__.py:108-150 | A handler gives its prefix to the first open IA_PD that asks for it, or else the first one open, and then its address to an IA_NA likewise, with its lifetimes; both are marked and nothing else changes |
| AnswersGiven.AssignedAddressIsAnswered | dhcpkit/ipv6/server/extensions/static_assignments/__init__.py:108-150 | Whatever handlers come before and after, that address is in the answer if an IA_NA was open |
| AnswersGiven.AssignedPrefixIsAnswered | dhcpkit/ipv6/server/extensions/static_assignments/__init__.py:108-150 | The same for the prefix |
| AnswersGiven.RenewalIsExact | dhcpkit/ipv6/server/extensions/static_assignments/__init__.py:172-223 | A handler answers exactly the open IA_NAs and the open IA_PDs with an overlapping prefix, each with all it held in order, its own with its lifetimes and the others with 0 |
| AnswersGiven.MarkingIsExact | dhcpkit/ipv6/server/extensions/static_assignments/__init__.py:152-170 | For a Confirm, Release or Decline it answers nothing and marks exactly the IA_NAs that hold its address and, but for a Confirm, the IA_PDs with an overlapping prefix |
| AnswersHeld.OverlapsIff | dhcpkit/ipv6/utils.py:55-68 | Two networks overlap if and only if they have a 128-bit address in common |
| AnswersHeld.HeldInOrder | dhcpkit/ipv6/options.py:596-602 | What an IA holds is read in the order of its options |
| RateLimit.RateLimitCounters.CheckRequest | dhcpkit/ipv6/server/extensions/rate_limit/manager.py:21-59 | One request changes only the counter of its own key, and is admitted when a whole token is there |
| RateLimit.FoundIsTheLeastQuota | dhcpkit/ipv6/server/extensions/rate_limit/manager.py:30-44 | The allowance a request finds is the least, over all windows that end with it, of burst plus rate times time minus admissions |
| RateLimit.AdmittedIffWithinEveryWindow | dhcpkit/ipv6/server/extensions/rate_limit/manager.py:46-59 | A request is admitted if and only if, from every request of its key so far, the admissions and this one stay within burst plus rate times elapsed time |
| RateLimit.NoWindowExceedsItsQuota | dhcpkit/ipv6/server/extensions/rate_limit/manager.py:36-44 | With a clock that does not go back, no window ever admits more than that |
| RateLimit.BurstAtOnce | dhcpkit/ipv6/server/extensions/rate_limit/manager.py:14-20 | Of requests that come at once as many are admitted as the burst, or the rate without one |
| RateLimit.Serve | dhcpkit/ipv6/server/extensions/rate_limit/manager.py:21-59 | With many keys in one store each decision is that of its own key's requests alone |
| TcpFraming.Connection.RecvDataIntoBuffer | dhcpkit/ipv6/server/listeners/tcp.py:106-124 | Moves at least one and at most the wanted octets into the buffer, none exactly when the peer has closed |
| TcpFraming.Connection.PacketFromBuffer | dhcpkit/ipv6/server/listeners/tcp.py:68-78 | Takes exactly one frame off the front of the buffer |
| TcpFraming.Connection.RecvRequest | dhcpkit/ipv6/server/listeners/tcp.py:126-156 | A packet is the next frame of what lies ahead and leaves the buffer empty; otherwise nothing is lost and the buffer holds an unfinished frame |
| TcpFraming.DeframeFraming | dhcpkit/ipv6/server/listeners/tcp.py:192-194 | Deframing undoes framing, zero-length messages and an unfinished frame at the end included |
| TcpFraming.FramingDeframe | dhcpkit/ipv6/server/listeners/tcp.py:68-78 | Every stream is the frames of its messages and one unfinished frame |
| TcpFraming.FrameIsLengthAndMessage | dhcpkit/ipv6/server/listeners/tcp.py:192-194 | A frame is the length in two octets, high one first, and the message |
| TcpFraming.Receive | dhcpkit/ipv6/server/main.py:325-341 | After any calls with any pieces, the packets are the messages of the octets received and the buffer holds just the unfinished frame |
| TcpFraming.ReceiveAll | dhcpkit/ipv6/server/listeners/tcp.py:126-156 | However a stream is split, its messages arrive in order and nothing else does |
| TcpFraming.Replier.SendReply | dhcpkit/ipv6/server/listeners/tcp.py:184-201 | Puts the frame of the saved reply on the stream, or raises before sending when it cannot be encoded or is too long |
| TcpFraming.Converse | dhcpkit/ipv6/server/listeners/tcp.py:184-201 | Replies sent over one connection and split in any way parse to the same messages at the other end |
| CsvBuilder.NoRowGetsOlder | dhcpkit/ipv6/server/extensions/static_assignments/sqlite.py:84-96 | Along every interleaving no id goes back to an older file than it has its row from, even if it was deleted in between, if no file newer than that is empty |
| CsvBuilder.StepKeepsSettled | dhcpkit/ipv6/server/extensions/static_assignments/sqlite.py:84-130 | The newest modification time in the table never goes back |
| CsvOrder.OlderBuilderIsShutOutIff | dhcpkit/ipv6/server/extensions/static_assignments/sqlite.py:84-90 | Once a builder has committed, an older one with rows left exits with 1 on its next turn and changes nothing, in every run, if and only if no file newer than the first one's is empty |
| CsvOrder.RowStaysNewIff | dhcpkit/ipv6/server/extensions/static_assignments/sqlite.py:84-130 | For an id that both name, a row from the newer file never makes way for one from the older, in every run, if and only if no file newer than both is empty |
| CsvOrder.EmptyFileLetsAnOlderOneIn | dhcpkit/ipv6/server/extensions/static_assignments/sqlite.py:111-130 | An unforced builder with an empty file is enough to let an older one in |
| CsvBuilder.FillIs | dhcpkit/ipv6/server/extensions/static_assignments/sqlite.py:92-96 | A batch writes the last-wins mapping of its rows and leaves other rows alone |
| CsvBuilder.FillingIsExact | dhcpkit/ipv6/server/extensions/static_assignments/sqlite.py:81-105 | One step of filling writes 50 rows, or those left, or stops with code 1 at the sight of a newer row |
| CsvBuilder.EndingIsExact | dhcpkit/ipv6/server/extensions/static_assignments/sqlite.py:111-130 | The steps after that: the delete passes with force or at least 7 rows of this file for every 10 that were counted, removes exactly the older rows and exits with 0; otherwise nothing changes and the code is 2 |
| CsvBuilder.LastRowWins | dhcpkit/ipv6/server/extensions/static_assignments/sqlite.py:92-96 | The last row for an id is what a file says about it |
| CsvExact.RunIsExactly | dhcpkit/ipv6/server/extensions/static_assignments/sqlite.py:81-139 | In every run the rows the newest builder has committed are final unless it writes them again, and once it has exited with 0 the table is its mapping |
| CsvExact.TwinSpoils | dhcpkit/ipv6/server/extensions/static_assignments/sqlite.py:87-90 | A builder with an equally new file and a differing batch can spoil the table just before the exit |
| CsvExact.NewestBuilderIsExactIffTwinsAgree | dhcpkit/ipv6/server/extensions/static_assignments/sqlite.py:81-139 | Whenever the newest builder has exited with 0 the table is exactly its file's last-wins mapping, in every run, if and only if no equally new file has a batch that says otherwise |
| CsvLimit.DeletesAtMostThirtyPercent | dhcpkit/ipv6/server/extensions/static_assignments/sqlite.py:111-130 | Without force at most 30% of the rows go, whatever others do between the counts and the delete, if its file has rows, no newer file is empty and no equally new file names an id that this one does not |
| CsvTwins.LimitHoldsIff | dhcpkit/ipv6/server/extensions/static_assignments/sqlite.py:111-130 | For a builder and all at least as new, beside any older ones: at most 30% of the rows go in every run if and only if its file has rows, no newer file is empty, and no equally new one names an id that it does not |
| CsvTwins.SevenForTenHoldsIff | dhcpkit/ipv6/server/extensions/static_assignments/sqlite.py:111-130 | The weaker bound, 7 rows left for every 10 deleted, holds in every run if and only if its file has rows and no newer file is empty |
| CsvTwins.EmptyNewerBreaksTheLimit | dhcpkit/ipv6/server/extensions/static_assignments/sqlite.py:111-130 | A newer builder with an empty file that counts first makes a run in which the builder deletes all rows, those of an older one |
| CsvTwins.CrowdedBreaksTheLimit | dhcpkit/ipv6/server/extensions/static_assignments/sqlite.py:111-130 | When such a file adds ids between the two counts, a run beside an older file of the right size passes the 70% test and deletes more than 30% |
| CsvTwins.TwinsBreakTheLimit | dhcpkit/ipv6/server/extensions/static_assignments/sqlite.py:111-130 | One equally new file with one id of its own is enough for the limit to be broken in some run |
| CsvTwins.EmptyBreaksTheLimit | dhcpkit/ipv6/server/extensions/static_assignments/sqlite.py:111-130 | A builder with an empty file that counts first goes on to delete all that an older one commits |
| CsvLimit.DeletesLeaveSevenForTen | dhcpkit/ipv6/server/extensions/static_assignments/sqlite.py:111-130 | If its file has rows and no newer file is empty, an unforced builder leaves at least 7 rows for every 10 it deletes, whatever equally new files name |
| CsvLoop.FillTable | dhcpkit/ipv6/server/extensions/static_assignments/sqlite.py:81-109 | The loop with its batch counter, anything happening between transactions, is a schedule of batch steps that ends with every row committed, with a newer file seen, or with an unreadable row |
| CsvLoop.BuildSqlite | dhcpkit/ipv6/server/extensions/static_assignments/sqlite.py:81-139 | The whole builder is such a schedule, and its exit code is the one the steps lead to |
| ElementClass.NearestIsMostSpecific | dhcpkit/protocol_element.py:341-380 | The nearest permitted class on the way to the root is a subclass of every other permitted ancestor |
| ElementClass.MostSpecificIsNearest | dhcpkit/protocol_element.py:341-380 | There is only one such class |
| ElementClass.GetElementClass | dhcpkit/protocol_element.py:341-380 | In any order of the table the loop finds the most specific permitted ancestor, or nothing if there is none or its maximum is below 1 |
| ElementClass.ValidateContains | dhcpkit/protocol_element.py:121-153 | Accepts exactly the lists of permitted elements whose counts for each class respect minimum and maximum |
| ElementClass.NearestEntryCounts | dhcpkit/protocol_element.py:48-64 | A class permits what it or an ancestor permits, and its own entry comes first |
| ElementClass.EchoRequestAndRelayIdAreRefused | dhcpkit/ipv6/options.py:2450-2451 | No relay-forward message with an echo-request or relay-id option is accepted |

## Left out

- CodecLoops.LoadOption: registered options outside RFC 3315, RFC 3633 and MAP (except remote-id, relay-id and echo-request) give an error of their own where the source decodes them.
- RelayStore.EncodeRelayMessages: takes hop counts that fit an octet; `RelayStore.RememberRelays` has the one that need not.
- RelayStore.StoreAndReload: likewise for hop counts; `RelayStore.RememberAndReload` is for received packets.
- RelayChain.WrapResponse: only for chains around a request that was accepted; no reply is built for others.
- LeaseQuery.GenerateClientData: reports a recorded range as it is; the source turns it into a prefix and skips a range that is none, which no delegated prefix makes.
- Protocol elements are values, not objects whose fields `load_from` fills in; an object that a failed load leaves half filled is not modelled.
- MAP options inside messages: they are modelled next to the other options.
- UTF-8 and IDNA: status texts are octets, domain names do not occur.
- `Option.parse` with a length other than the rest of the buffer: no caller gives one.
- The SQLite engine: tables are maps and sets, a transaction is one step, a cursor lists the rows that match when the query starts, in any order; last row ids and schema upgrades are not modelled.
- The lookup of an assignment by DUID, interface-id, remote-id, subscriber-id or link-layer-id, and the normalisation of identifiers in the CSV file: an assignment and a list of rows are inputs.
- Modification times before 1970: they are natural numbers here.
- Floating point: the rate limiter uses reals, and the 70% test of the CSV builder is exact.
- Reading clocks: times are inputs. Sockets: `recv` returns any number of octets up to what was asked for.
- A request for options in a lease query, and the filter for sensitive options in its answer.
- Handlers for server-id, client-id, interface-id, unicast, preference, DNS and other single options, the filters that select handlers, and analysis handlers.
- The remaining error replies of the message handler, which only build one message with a status.
- Multiple inheritance of protocol elements, for which the source itself says that the outcome depends on the order.
- Configuration, registries, statistics, logging, display, processes, privileges and signals.
