# Verified models of the Elide compile workers

These Dafny modules model the three workers that stand between Bazel and the Elide
compilers in rules_elide, and prove what they promise.

1. **The worker wire codec** (`Varint`, `Utf8`, `Wire`, `WireTrees`, `Framing`,
   `WorkMessages`, `MessageFields`): the hand-written Protocol Buffers parser and printer
   of `WorkerProtocol.java`, after "Base 128 Varints", "Message Structure" and "Groups" of
   the Protocol Buffers Encoding specification. A recursive parser over all wire types is
   shown lossless, local, distributive over concatenation, equal in what it accepts to a
   one-pass stack checker, and exact on every message printed from a tree; argument
   replacement keeps every other byte. `GenWorkRequest` is the independent Python codec,
   shown to agree with the Java one.
2. **The incremental compile worker** (`Signature`, `IncrementalWorker`,
   `CacheTransparency`, `WorkerLoop`): the cache from output path to signature and private
   root. The main theorem is `CacheTransparency.CacheTransparency`, and
   `WorkerLoop.LoopIsTransparent` carries it to the persistent loop over a byte stream:
   an answer with exit code 0 means that the published jar is that of a clean compile.
3. **The resident worker client and the compile planner** (`ElideWorker`, `KotlinMain`,
   `Flagfile`, `BuiltinPlugins`, `ElideCompile`): a restartable client that never returns
   another call's reply, a resident path that refines the one-shot path, and a
   translation of flags that keeps the requested plugins.

`PartialCompile` is the class merge of the Java partial-compile experiment.

## How the models are made

Each module has functions that define what the code computes and, where the source
loops or updates fields, methods and classes proved equal to them. Theorems are lemmas
about the functions.

- A Java `long` is its unsigned value below 2^64, with the signed reading where the
  source compares or truncates; `Varint.OrIsAddition` and its neighbours justify
  arithmetic in place of bit operations. A Java string is a sequence of Unicode scalar
  values, all that the strict decoder can produce; paths sort by UTF-16 code units.
- An exception is an `Err`, `None`, `Threw` or `Raised` value. What the outside world does in one
  call is a parameter (`Moment`, `Net`), so that theorems range over every behaviour of
  files and processes.
- A root's incremental cache is the log of the compiles that ran in it. The native
  compiler is a contract (`CacheTransparency.Honest`): in an empty root, or in one whose
  compiles all succeeded and whose last one had the same arguments and the same
  untracked inputs, a success leaves what `clean` gives. `clean` stands for any function
  of the original arguments and inputs.
- `RootFits`, `Fits` and `Representable` say that encoded strings fit in Java arrays;
  `WorkerLoop.StreamRequestIsReceived` shows that requests from the stream always do.

## What the proofs found

- A comment at `elide/private/ic_worker/IncrementalWorker.java:54` says length prefixes
  keep argument boundaries unambiguous. They do between arguments, but nothing separates
  the arguments from the inputs (`Signature.BoundaryIsNotHashed`). Cache transparency
  holds when every request with inputs has as many arguments as the earlier ones for its
  output with an equal pre-image. The condition is exact: one request can mislead the
  worker about the next if and only if the pair breaks it
  (`CacheTransparency.MisleadsExactlyWhen`); a request without inputs is always safe. Such
  pairs are among the requests that the worker parses (`CacheTransparency.ConfusablePair`):
  `-- -d o p q` without inputs, and `-- -d o` with an input `p` whose digest is `q`.
- The first bare `--` of a planned command is the separator except in a native
  processing request with a processor option `--`, which the Java compiler option
  `-A--` turns into (`ElideCompile.SeparatorComesFirst`, an equivalence, and
  `ElideCompile.ProcessorOptionComesFirst`, an input).
- The response check at `benchmarks/pgo/gen_workrequest.py:75` lets a failed compile pass
  exactly when a later, empty, length-delimited field 1 hides the exit code in Python's
  dictionary (`GenWorkRequest.FailurePassesExactlyWhen`, `GenWorkRequest.HiddenFailurePasses`).
- When a command behind the forwarded compile raises, `compileCmds` runs the whole plan
  once more, where the one-shot path throws. `KotlinMain.ResidentRefinesOneShot` says
  exactly when the two differ, and `KotlinMain.LateFailureIsRetried` gives such a case.
- The filename merge of partial compiles equals the full compile exactly under the two
  conditions of `PartialCompile.MergeIsFullExactlyWhen`.
- Python accepts more than Java: field number 0, numbers of 2^29 and above, and varints
  of 64 bits and above. `GenWorkRequest.ParsersAgree` gives the exact difference.

## Model
| member | source | states |
|---|---|---|
| Varint.RoundTrip | elide/private/ic_worker/WorkerProtocol.java:21-31 | every 64-bit value read back after printing is the same, whatever follows; 1 to 10 bytes, a tenth byte at most 1 |
| Varint.ReadFits | elide/private/ic_worker/WorkerProtocol.java:21-31 | whatever the reader accepts is below 2^64 |
| Varint.ReadIsPositional | elide/private/ic_worker/WorkerProtocol.java:21-31 | a varint is read exactly up to the first byte without a continuation bit, if that is one of the first ten and as a tenth at most 1, and is the number that its septets spell, padding included |
| Varint.TenthByte | elide/private/ic_worker/WorkerProtocol.java:26 | every accepted ten-byte varint ends in a byte of at most 1, canonical or not |
| Varint.WriteSize | elide/private/ic_worker/WorkerProtocol.java:91-97 | a value is printed in at most k bytes exactly when it is below 128^k |
| Varint.ReadIsLocal | elide/private/ic_worker/WorkerProtocol.java:21-31 | what is read depends only on the bytes consumed |
| Varint.IntSurvives | elide/private/ic_worker/WorkerProtocol.java:191 | a signed 32-bit id is sign-extended to 64 bits on writing and truncates back to itself on reading |
| Varint.IntIsTruncated | elide/private/ic_worker/WorkerProtocol.java:143 | the cast to `int` keeps any 64-bit value modulo 2^32, in the signed 32-bit range |
| Varint.WriteTo | elide/private/ic_worker/WorkerProtocol.java:91-97 | the printing loop appends exactly the encoding to the stream |
| Varint.OrIsAddition | elide/private/ic_worker/WorkerProtocol.java:27 | on 64-bit words the `|=` of the reading loop is addition, which is how the models accumulate |
| Varint.LastOrIsAddition | elide/private/ic_worker/WorkerProtocol.java:26-27 | the same for the single bit of a tenth byte |
| Varint.MasksAreDivision | elide/private/ic_worker/WorkerProtocol.java:92-94 | on 64-bit words the mask, the continuation bit and the unsigned shift of the printing loop are arithmetic by 128 |
| Utf8.RoundTrip | elide/private/ic_worker/WorkerProtocol.java:99-105 | strict decoding undoes encoding, for every string |
| Utf8.DecodeIsCanonical | elide/private/ic_worker/WorkerProtocol.java:99-101 | the reporting decoder accepts only the canonical encoding of what it returns |
| Wire.Tiling | elide/private/ic_worker/WorkerProtocol.java:80-89 | the raw slices of a parsed message concatenate to exactly the message |
| Wire.ParseIsLocal | elide/private/ic_worker/WorkerProtocol.java:46-78 | a field's parse, nested groups included, depends only on the bytes it consumes |
| Wire.GroupIsLocal | elide/private/ic_worker/WorkerProtocol.java:63-71 | the same for the contents of a group up to its end tag |
| Wire.ParseExtends | elide/private/ic_worker/WorkerProtocol.java:46-78 | a field that parses keeps its parse when more bytes follow |
| Wire.RawIsParsed | elide/private/ic_worker/WorkerProtocol.java:76 | a parsed field parses identically from its own raw slice |
| Wire.FieldsConcat | elide/private/ic_worker/WorkerProtocol.java:80-89 | behind a message that parses, parsing distributes over concatenation: fields are appended, and an error in the second part is the error of the whole |
| Wire.ParsedFieldsStandAlone | elide/private/ic_worker/WorkerProtocol.java:76-89 | every top-level field of a message is a message of its own |
| Wire.RawParsesBack | elide/private/ic_worker/WorkerProtocol.java:80-89 | any selection of parsed fields in any order, printed by raw bytes, parses back to exactly that selection |
| Wire.ParseScans | elide/private/ic_worker/WorkerProtocol.java:46-78 | the recursive parser steps over one field exactly as a one-pass stack checker does, failures included |
| Wire.GroupScans | elide/private/ic_worker/WorkerProtocol.java:63-71 | the same for the contents of a group, whose end tag pops its number off the stack |
| Wire.FieldsAcceptsExactlyBalanced | elide/private/ic_worker/WorkerProtocol.java:46-89 | the recursive parser accepts exactly the messages whose tokens are well formed and whose groups balance with equal numbers at most 100 deep, as a one-pass stack checker defines it; the extent of each token is pinned by `WireTrees` |
| Wire.NestingLimitIsExact | elide/private/ic_worker/WorkerProtocol.java:46-78 | n groups nested in one another are accepted exactly when n is at most 100 |
| WireTrees.TreesParse | elide/private/ic_worker/WorkerProtocol.java:46-89 | every message given as a tree of fields of all five kinds and printed byte by byte is accepted exactly when its groups nest at most 100 deep, and parses to its fields in order, each with number, wire type, value and own bytes |
| WireTrees.HeadParses | elide/private/ic_worker/WorkerProtocol.java:46-78 | the same for one field at any depth, whatever follows it |
| WireTrees.BrokenIsRefused | elide/private/ic_worker/WorkerProtocol.java:50-75 | refused: fewer than 8 or 4 bytes behind a fixed-width tag, an end tag without a group, wire types 6 and 7, and the numbers 0 and 2^29 and above |
| WireTrees.ShortIsRefused | elide/private/ic_worker/WorkerProtocol.java:32-35 | refused: a length beyond the end of the message |
| Wire.Cursor.constructor | elide/private/ic_worker/WorkerProtocol.java:20 | a cursor starts at the beginning of its data |
| Wire.Cursor.ReadVarint | elide/private/ic_worker/WorkerProtocol.java:21-31 | the reading loop returns the value and advances by exactly the bytes read, or fails with the same error |
| Wire.Cursor.Skip | elide/private/ic_worker/WorkerProtocol.java:32-35 | skips exactly the length, or fails without moving; a length that is negative as a long fails |
| Wire.Cursor.ReadTag | elide/private/ic_worker/WorkerProtocol.java:49-50 | the tag check as the source makes it on the signed long |
| Wire.Cursor.ReadBody | elide/private/ic_worker/WorkerProtocol.java:54-75 | each wire type's payload and extent |
| Wire.Cursor.ReadGroup | elide/private/ic_worker/WorkerProtocol.java:63-71 | the loop over nested fields ends at the matching end tag or with the first error; every round consumes |
| Wire.Cursor.ReadField | elide/private/ic_worker/WorkerProtocol.java:46-78 | the recursive method parses exactly the field at the cursor and leaves the cursor behind it |
| Wire.ReadFields | elide/private/ic_worker/WorkerProtocol.java:80-89 | the loop yields the list that the recursive parse defines, or its first error |
| Framing.RoundTrip | elide/private/ic_worker/WorkerProtocol.java:110-125 | a frame that a Java array can hold is read back as its body, leaving what follows untouched, exactly when it is within 64 MiB; a larger one is refused |
| Framing.StreamRoundTrip | elide/private/ic_worker/WorkerProtocol.java:110-125 | writing any messages within the limit and reading until the end gives exactly those messages and then a clean end |
| Framing.PrefixIsBroken | elide/private/ic_worker/WorkerProtocol.java:112-123 | every non-empty strict prefix of a frame is an error, never a message or the end of the stream, and which error it is |
| Framing.LengthIsLocal | elide/private/ic_worker/WorkerProtocol.java:113-120 | a frame length depends only on the bytes it occupies |
| Framing.LengthIsPositional | elide/private/ic_worker/WorkerProtocol.java:113-120 | a frame length is a varint of at most five bytes, read by position |
| Framing.ReadFrame | elide/private/ic_worker/WorkerProtocol.java:110-125 | the method returns what the framing defines and leaves exactly the rest in the stream |
| Framing.ReadContents | elide/private/ic_worker/WorkerProtocol.java:121-124 | the body behind the length, when it is within the limit and complete |
| Framing.InputStream.constructor | elide/private/ic_worker/WorkerProtocol.java:110 | an input stream over given bytes |
| Framing.InputStream.ReadByte | elide/private/ic_worker/WorkerProtocol.java:111 | one byte, or -1 at the end of the stream |
| Framing.InputStream.ReadNBytes | elide/private/ic_worker/WorkerProtocol.java:122 | up to n bytes, fewer only at the end of the stream |
| WorkMessages.ReplacementKeepsTheRest | elide/private/ic_worker/WorkerProtocol.java:161-168 | for every parsed request and every argument list, replacement succeeds and yields the new arguments with inputs, id and all other fields kept in bytes and order |
| WorkMessages.LastReplacementWins | elide/private/ic_worker/WorkerProtocol.java:161-168 | replacing arguments twice gives the same bytes and the same request as the second replacement alone |
| WorkMessages.CreatedFromNothing | elide/private/ic_worker/WorkerProtocol.java:158-160 | `create` gives exactly the arguments, no inputs and id 0 |
| WorkMessages.ParsedPrintsBack | elide/private/ic_worker/WorkerProtocol.java:139-174 | a parsed request prints back to the very bytes it came from |
| WorkMessages.DelimitedFieldStands | elide/private/ic_worker/WorkerProtocol.java:103-108 | a printed length-delimited field parses back to its number and bytes |
| WorkMessages.ScalarFieldStands | elide/private/ic_worker/WorkerProtocol.java:200-202 | a printed varint field parses back to its number and value |
| WorkMessages.ErrorRoundTrip | elide/private/ic_worker/WorkerProtocol.java:198-204 | the error reply parses to exit code 1, the same message and the same id, for every signed 32-bit id |
| WorkMessages.RequestIdIsInt | elide/private/ic_worker/WorkerProtocol.java:143 | a parsed request id is a signed 32-bit number |
| WorkMessages.ReplyKeepsBytes | elide/private/ic_worker/WorkerProtocol.java:186-187 | a parsed response keeps the bytes it came from for forwarding |
| WorkMessages.RequestIsWithin | elide/private/ic_worker/WorkerProtocol.java:139-153 | no argument, path or digest of a parsed request is longer than the message |
| WorkMessages.ReadInput | elide/private/ic_worker/WorkerProtocol.java:145-150 | the inner loop of the request constructor: last path and last digest win |
| WorkMessages.ReadRequest | elide/private/ic_worker/WorkerProtocol.java:139-153 | the request constructor gathers what the fold over the parsed fields defines |
| MessageFields.RequestIsItsFields | elide/private/ic_worker/WorkerProtocol.java:139-153 | a message is a request exactly when its texts decode and its inputs parse; it has an argument for each byte array under number 1 and an input for each under 2, in order, and the id of the last varint under 3, or 0 |
| MessageFields.InputIsItsFields | elide/private/ic_worker/WorkerProtocol.java:145-150 | an input has the last path under number 1 and the last digest under 2 |
| MessageFields.LastIdCounts | elide/private/ic_worker/WorkerProtocol.java:143 | appending a varint field changes the id exactly when its number is 3 |
| MessageFields.ResponseIsItsFields | elide/private/ic_worker/WorkerProtocol.java:186-193 | a response has the last exit code under number 1, the last output under 2 and the last id under 3 |
| MessageFields.OthersAreTheRest | elide/private/ic_worker/WorkerProtocol.java:163-165 | argument replacement takes out the byte arrays under number 1 and nothing else, wherever they stand |
| WorkMessages.ReadResponse | elide/private/ic_worker/WorkerProtocol.java:186-193 | the response constructor, last field of each kind winning |
| WorkMessages.WriteString | elide/private/ic_worker/WorkerProtocol.java:103-108 | appends one length-delimited field to the stream |
| WorkMessages.ReplaceArguments | elide/private/ic_worker/WorkerProtocol.java:161-168 | the two printing loops and the re-parse compute the replacement that the lemmas speak of |
| WorkMessages.WriteRequest | elide/private/ic_worker/WorkerProtocol.java:169-174 | writes one frame around the concatenated raw bytes |
| WorkMessages.MakeError | elide/private/ic_worker/WorkerProtocol.java:198-204 | prints and re-parses the error reply |
| WorkMessages.WriteResponse | elide/private/ic_worker/WorkerProtocol.java:205-208 | writes one frame around the unchanged response bytes |
| Signature.ChunksInjective | elide/private/ic_worker/IncrementalWorker.java:53-57 | big-endian length prefixes make the hashed bytes determine the list of hashed arrays |
| Signature.PreimageInjective | elide/private/ic_worker/IncrementalWorker.java:59-92 | equal pre-images come from equal flattened lists of arguments, paths and digests |
| Signature.PreimageDecides | elide/private/ic_worker/IncrementalWorker.java:59-92 | between requests with equally many arguments equal pre-images mean equal arguments and equal hashed inputs, and conversely; and equal pre-images have equal arguments exactly when their counts agree |
| Signature.BoundaryIsNotHashed | elide/private/ic_worker/IncrementalWorker.java:79-90 | a hashed input can be traded for two arguments without changing the pre-image: the count condition is needed |
| Signature.HashedElements | elide/private/ic_worker/IncrementalWorker.java:84-90 | the hashed inputs are exactly those that are neither sources nor jars found by the classpath scan |
| Signature.PreimageIgnoresExactlyTracked | elide/private/ic_worker/IncrementalWorker.java:62-90 | for the same arguments and inputs with distinct paths the pre-image is decided by exactly the set of untracked inputs: order and tracked content do not matter, anything else does |
| Signature.SortSorts | elide/private/ic_worker/IncrementalWorker.java:84-85 | the sort by path orders inputs with distinct paths strictly in UTF-16 order |
| Signature.PluginFlagsDisableTracking | elide/private/ic_worker/IncrementalWorker.java:64-67 | with a plugin or friend flag equal pre-images, at equal argument counts, mean equal inputs but for sources: jars on the classpath are hashed too |
| Signature.JarsFromAreGiven | elide/private/ic_worker/IncrementalWorker.java:69-76 | the scan finds exactly the jars among the values of the flags that are not themselves such a value, wherever they stand behind the start |
| Signature.TrackedIsExact | elide/private/ic_worker/IncrementalWorker.java:62-90 | what is left out of the hash: sources, and without a plugin or friend flag exactly the jars on a classpath given behind the first `--` |
| Signature.HashedIsExact | elide/private/ic_worker/IncrementalWorker.java:62-90 | the hashed inputs, with every flag and suffix written out: all but sources and, unless a plugin or friend flag is present, the jars on a classpath behind the separator |
| Signature.ClasspathJarsAreTracked | elide/private/ic_worker/IncrementalWorker.java:68-76 | so every jar on a classpath behind the separator is left out, whatever stands between |
| Signature.SortKeepsElements | elide/private/ic_worker/IncrementalWorker.java:84-85 | the sort neither loses nor adds inputs |
| Signature.OrderIsTotal | elide/private/ic_worker/IncrementalWorker.java:85 | Java's string order is total and antisymmetric |
| Signature.OrderIsByUnits | elide/private/ic_worker/IncrementalWorker.java:85 | paths are compared by UTF-16 code units, as Java compares strings |
| Signature.HashedIsSorted | elide/private/ic_worker/IncrementalWorker.java:84-90 | what is hashed is in path order and keeps the untracked inputs of each path in their own order, duplicates included |
| Signature.BigEndianIsPositional | elide/private/ic_worker/IncrementalWorker.java:53-57 | the four length bytes are the number in base 256, most significant first |
| Signature.FindClasspathJars | elide/private/ic_worker/IncrementalWorker.java:62-77 | the scanning loop, which skips each flag's value, finds the jars that the recursive scan defines |
| Signature.MessageDigest.constructor | elide/private/ic_worker/IncrementalWorker.java:78 | a digest starts with nothing fed to it |
| Signature.MessageDigest.Hash | elide/private/ic_worker/IncrementalWorker.java:53-57 | feeds a four-byte length and the bytes |
| Signature.FeedArguments | elide/private/ic_worker/IncrementalWorker.java:79-81 | feeds every argument, length first, in order |
| Signature.FeedInputs | elide/private/ic_worker/IncrementalWorker.java:84-90 | feeds path and digest of every untracked input in sorted order |
| Signature.ComputeSignature | elide/private/ic_worker/IncrementalWorker.java:59-92 | the method digests exactly the pre-image |
| IncrementalWorker.RewritingKeepsTheRest | elide/private/ic_worker/IncrementalWorker.java:123-141 | three tokens go in right before the first `--`, the value of the first `-d` is replaced, and undoing the two edits restores the arguments |
| IncrementalWorker.AcceptedExactlyWhen | elide/private/ic_worker/IncrementalWorker.java:123-129 | accepted are exactly the argument lists with a `--`, a first `-d` behind it, and a value behind that |
| IncrementalWorker.RewrittenIs | elide/private/ic_worker/IncrementalWorker.java:137-141 | the rewritten list, token by token, and the output it is for |
| IncrementalWorker.ForwardingPreservesMeaning | elide/private/ic_worker/IncrementalWorker.java:139-143 | what the compiler receives is one frame that parses to the rewritten arguments and the original inputs, id and other fields |
| IncrementalWorker.StartsFreshUnlessHit | elide/private/ic_worker/IncrementalWorker.java:131-136 | a request starts from an existing root exactly when it has inputs and the output's state carries its signature; otherwise the root is new and empty and the old one is gone; never a hit without inputs |
| IncrementalWorker.PreparedRoots | elide/private/ic_worker/IncrementalWorker.java:131-136 | preparing gives the output a state with a root of its own under the request's signature and touches no other output |
| IncrementalWorker.DropKeepsRoots | elide/private/ic_worker/IncrementalWorker.java:133 | dropping an output removes its root and nothing else, leaving one root per state |
| IncrementalWorker.OpenKeepsRoots | elide/private/ic_worker/IncrementalWorker.java:134-135 | opening a new root keeps one root per state |
| IncrementalWorker.StepEffect | elide/private/ic_worker/IncrementalWorker.java:122-160 | success adds one compile to its own root and publishes its own jar; a non-zero exit drops only its own output's state and root; an exception drops all states, roots and the compiler; a refused argument list changes nothing; `RepliesExactlyWhen` says which of these happens |
| IncrementalWorker.SucceedsExactlyWhen | elide/private/ic_worker/IncrementalWorker.java:94-106 | over everything a call may meet, a request succeeds exactly when its arguments are accepted, the compiler runs and takes it, the next message in its output is exit code 0 under the request's id, and packing works |
| IncrementalWorker.RepliesExactlyWhen | elide/private/ic_worker/IncrementalWorker.java:94-106 | over everything a call may meet, a request is answered exactly when its arguments are accepted, a response under its id is delivered and the files are in order; the answer is that response, whatever its exit code, and the compiler lives on behind it |
| IncrementalWorker.FailureKeepsTheRest | elide/private/ic_worker/IncrementalWorker.java:142-150 | a non-zero exit code costs its own output's state and root and nothing else: jars, other states and roots and the compiler are kept |
| IncrementalWorker.ExceptionStartsOver | elide/private/ic_worker/IncrementalWorker.java:151-159 | an exception costs all states, roots and the compiler, and no jar but one whose packing failed |
| IncrementalWorker.StepKeepsQuiet | elide/private/ic_worker/IncrementalWorker.java:94-106 | one call leaves nothing unread of a compiler that answers once, and replies with that answer, whatever fails |
| IncrementalWorker.StepKeepsCoherent | elide/private/ic_worker/IncrementalWorker.java:130-159 | every request keeps: scratch holds exactly the pairwise distinct roots of the states, and each root has seen only successful, published compiles with matching ids for its output under its signature, at least one |
| IncrementalWorker.OwnLogIsSound | elide/private/ic_worker/IncrementalWorker.java:142-150 | after a success every compile ever run in the root it leaves behind is such a compile |
| CacheTransparency.ReachableIsCoherent | elide/private/ic_worker/IncrementalWorker.java:122-160 | that invariant holds in every state that any run reaches, and logs hold only requests of the run |
| CacheTransparency.HitIsFaithful | elide/private/ic_worker/IncrementalWorker.java:130-132 | a reused root was last used for the same arguments and the same untracked inputs |
| CacheTransparency.StartIsCompatible | elide/private/ic_worker/IncrementalWorker.java:130-136 | whatever happened before, a request starts in a root in which the compiler promises a clean result |
| CacheTransparency.CacheTransparency | elide/private/ic_worker/IncrementalWorker.java:122-160 | over every run mixing outputs, successes, compile failures and exceptions, each successful request publishes the jar of a clean compile of its own arguments and inputs; the condition on argument counts concerns requests with inputs and earlier ones only |
| CacheTransparency.CountsAreNeeded | elide/private/ic_worker/IncrementalWorker.java:79-90 | without agreeing argument counts a legal run with an honest compiler can publish any jar whatever, for every such pair whose second request has inputs |
| CacheTransparency.MisleadsExactlyWhen | elide/private/ic_worker/IncrementalWorker.java:130-136 | one request can mislead the worker about the next exactly when they are for one output, hash the same bytes, differ in their number of arguments, and the second has inputs |
| CacheTransparency.ConfusablePair | elide/private/ic_worker/IncrementalWorker.java:79-90 | such a pair exists among the requests that a client can encode and the worker parses |
| CacheTransparency.WrongJarIsPublished | elide/private/ic_worker/IncrementalWorker.java:122-160 | on that pair, with every honest compiler, a legal run publishes any jar whatever |
| CacheTransparency.RepliesAreOwn | elide/private/ic_worker/IncrementalWorker.java:94-106 | over every run with a compiler that answers each request once, nothing stays unread between calls, and each reply is the answer given in its own call |
| WorkerLoop.Worker.constructor | elide/private/ic_worker/IncrementalWorker.java:41-44 | the worker starts with no states, no compiler and an empty scratch directory |
| WorkerLoop.Worker.Compile | elide/private/ic_worker/IncrementalWorker.java:94-106 | starts the compiler if needed, sends exactly one frame with the request, and returns a parsed reply only under the request's id |
| WorkerLoop.Worker.Try | elide/private/ic_worker/IncrementalWorker.java:142-150 | the `try` block: compile, then publish or drop |
| WorkerLoop.Worker.StartOver | elide/private/ic_worker/IncrementalWorker.java:133-135 | removes the stale root and makes a new one |
| WorkerLoop.Worker.Redirect | elide/private/ic_worker/IncrementalWorker.java:139-141 | the two edits of the argument list |
| WorkerLoop.Worker.Handle | elide/private/ic_worker/IncrementalWorker.java:122-160 | the whole method with its `catch` computes the step that the invariants and the transparency theorem speak of |
| WorkerLoop.StreamRequestIsReceived | elide/private/ic_worker/IncrementalWorker.java:197 | whatever the stream delivers meets the size conditions that the theorems ask for |
| WorkerLoop.RequestsOfFrames | elide/private/ic_worker/IncrementalWorker.java:197 | the requests of a stream are those of its frames, in order, as far as frames hold requests |
| WorkerLoop.StreamEndsOrBreaks | elide/private/ic_worker/IncrementalWorker.java:197 | behind them the stream ends cleanly if nothing follows, and breaks on a cut frame or one without a request |
| WorkerLoop.Pairing | elide/private/ic_worker/IncrementalWorker.java:196-206 | over every input stream, one reply per parsed request, in order, each with its request's id, on the forwarded and on the error path; the loop ends normally exactly when the stream does |
| WorkerLoop.OutputReadsBack | elide/private/ic_worker/IncrementalWorker.java:204 | whoever reads the output stream gets exactly those replies and a clean end |
| WorkerLoop.RespondMatches | elide/private/ic_worker/IncrementalWorker.java:199-203 | the reply is the compiler's own response, or exit code 1 with the text of the exception; its exit code is 0 exactly when the request succeeded |
| WorkerLoop.LoopRunsItsRequests | elide/private/ic_worker/IncrementalWorker.java:196-206 | the loop handles every parsed request once, in order, ends in the state the last one left, and each reply is what its request came to |
| WorkerLoop.TurnsAreChained | elide/private/ic_worker/IncrementalWorker.java:195-206 | each request of the loop is handled in the state that the request before it left |
| WorkerLoop.LoopIsLegal | elide/private/ic_worker/IncrementalWorker.java:195-206 | whatever bytes the stream holds, the loop makes a run of the kind that cache transparency is proved for |
| WorkerLoop.LoopIsTransparent | elide/private/ic_worker/IncrementalWorker.java:196-206 | end to end: a reply with exit code 0 means that the jar just published is the clean compile of that request |
| WorkerLoop.ServeRequests | elide/private/ic_worker/IncrementalWorker.java:196-206 | the loop itself: output stream, final state and way of ending |
| WorkerLoop.Send | elide/private/ic_worker/IncrementalWorker.java:199-203 | the forwarded response, or an error response made from the exception |
| GenWorkRequest.MessageIsUnderstood | benchmarks/pgo/gen_workrequest.py:30-35 | the Java parser reads a Python-encoded request as exactly its arguments and inputs, id 0 |
| GenWorkRequest.RequestIsUnderstood | benchmarks/pgo/gen_workrequest.py:36 | the same through the framed stream, leaving what follows |
| GenWorkRequest.ParsersAgree | benchmarks/pgo/gen_workrequest.py:52-64 | Java accepts a message using only wire types 0 and 2 exactly when Python accepts it with numbers in 1..2^29-1 and integers below 2^64, and then both read the same numbers and values |
| GenWorkRequest.VarintsAgree | benchmarks/pgo/gen_workrequest.py:39-49 | the two varint readers agree exactly on the values that fit in the bits left |
| GenWorkRequest.CountsEveryResponse | benchmarks/pgo/gen_workrequest.py:67-81 | over a stream of framed replies the check counts them all, or raises when one is not a plain success |
| GenWorkRequest.LastExitCodeWins | benchmarks/pgo/gen_workrequest.py:75-76 | where the last field under number 1 is a varint, Python's dictionary and Java's loop keep the same exit code; without the field both keep the default |
| GenWorkRequest.PassesExactlyWhen | benchmarks/pgo/gen_workrequest.py:75-77 | of all replies that Java parses those pass that use wire types 0 and 2 only and whose last field 1 and last field 4 are absent, zero or empty |
| GenWorkRequest.SuccessPasses | benchmarks/pgo/gen_workrequest.py:75-77 | a plain success passes, whatever its output and other fields |
| GenWorkRequest.FailurePassesExactlyWhen | benchmarks/pgo/gen_workrequest.py:75-77 | a reply that Java reads as a failure passes the check exactly when all its fields are of wire types 0 and 2, the last one under number 1 is an empty string of bytes, and it is not cancelled |
| GenWorkRequest.HiddenFailurePasses | benchmarks/pgo/gen_workrequest.py:75-77 | the four-byte reply of exit code 1 and an empty string under the same number does pass |
| GenWorkRequest.FailuresAreCaught | benchmarks/pgo/gen_workrequest.py:75-77 | so no failure passes whose exit code comes as a varint |
| GenWorkRequest.ErrorRepliesAreCaught | benchmarks/pgo/gen_workrequest.py:75-77 | the Java worker's error reply never passes |
| GenWorkRequest.EncodeVarint | benchmarks/pgo/gen_workrequest.py:16-23 | the Python loop prints the same bytes as the Java one |
| GenWorkRequest.EncodeField | benchmarks/pgo/gen_workrequest.py:26-27 | one length-delimited field |
| GenWorkRequest.EncodeRequest | benchmarks/pgo/gen_workrequest.py:30-36 | the comprehension and the accumulating loop give the framed message |
| GenWorkRequest.DecodeVarint | benchmarks/pgo/gen_workrequest.py:39-49 | value and new offset, or the error, of the reading loop |
| GenWorkRequest.DecodeRecord | benchmarks/pgo/gen_workrequest.py:55-64 | one round of the generator |
| GenWorkRequest.DecodeFields | benchmarks/pgo/gen_workrequest.py:52-64 | the generator exhausted |
| GenWorkRequest.CheckResponses | benchmarks/pgo/gen_workrequest.py:67-81 | returns exactly when all replies pass and their number is the expected one |
| ElideWorker.NoCrossWiring | elide/kotlin/builder/ElideWorker.kt:67-96 | in every run with failures, restarts and closes a call returns only the resident's answer to that very call, although id 0 is accepted |
| ElideWorker.ReturnsExactlyWhen | elide/kotlin/builder/ElideWorker.kt:67-96 | in every run, a call returns exactly when a process lives or starts, the request is taken and recorded, a reply arrives, and the resident's answer to this call carries its id or 0; the process then lives on with nothing unread, and otherwise none does |
| ElideWorker.ReachableIsIdle | elide/kotlin/builder/ElideWorker.kt:67-102 | between calls a live process has no unread reply |
| ElideWorker.FailureRestarts | elide/kotlin/builder/ElideWorker.kt:46-58 | after a failed call the next one starts a new process whatever it meets, if one can be started; and when none could be started the call has changed nothing |
| ElideWorker.IdsCountUp | elide/kotlin/builder/ElideWorker.kt:68-69 | ids count up by one for each call that has a process, wrapping around in 32 bits |
| ElideWorker.CallsAreNumbered | elide/kotlin/builder/ElideWorker.kt:68-75 | two calls that send a request send different ids, unless 2^32 or more ids were taken between them |
| ElideWorker.Worker.constructor | elide/kotlin/builder/ElideWorker.kt:43-44 | no process, next id 1 |
| ElideWorker.Worker.Start | elide/kotlin/builder/ElideWorker.kt:46-58 | keeps a live process, replaces a dead one, and changes nothing when starting throws |
| ElideWorker.Worker.Kill | elide/kotlin/builder/ElideWorker.kt:98-102 | drops the process |
| ElideWorker.Worker.CloseWorker | elide/kotlin/builder/ElideWorker.kt:106-112 | drops the process and nothing else |
| ElideWorker.Worker.CompileOn | elide/kotlin/builder/ElideWorker.kt:67-96 | the method computes the transition that the run theorems speak of, including the kill on every failure |
| KotlinMain.ForwardingRefinesRunning | elide/kotlin/builder/Main.kt:108-128 | for every command list: behind a resident that returns, the outcome is that of running the list, and if that throws, of running it once more from there; behind one that fails, of running it from the world that it left |
| KotlinMain.PlanIsOneProgram | elide/kotlin/builder/ElideCompile.kt:196-208 | the commands of a plan all run the same program, and the worker arguments of the first are what follows program and tool name |
| KotlinMain.ResidentRefinesOneShot | elide/kotlin/builder/Main.kt:108-128 | on every plan the resident and the one-shot path end alike exactly unless the compile succeeds, the source jar command raises, and doing both again does not end the same way |
| KotlinMain.NothingRaisesNothingDiffers | elide/kotlin/builder/Main.kt:108-128 | when no command raises, the world, exit code and output are the same |
| KotlinMain.LateFailureIsRetried | elide/kotlin/builder/Main.kt:124-127 | the difference is real: when the second command raises once, one path throws and the other succeeds on its second try |
| KotlinMain.RunThrowsExactlyWhen | elide/kotlin/builder/ElideCompile.kt:219-237 | running throws exactly when a command that is reached, behind successes only, raises, and leaves the world as that command left it |
| KotlinMain.RunStopsAtFirstFailure | elide/kotlin/builder/ElideCompile.kt:219-237 | running stops at the first non-zero exit code, with that code, or at the end with 0, and has all output until then |
| KotlinMain.Execute | elide/kotlin/builder/ElideCompile.kt:219-237 | the loop with its string builder stops at the first non-zero exit with all output so far |
| Flagfile.ParsingConcat | elide/kotlin/builder/Flagfile.kt:45-54 | parsing is a homomorphism: tokens appended from a flag on contribute exactly what they contribute alone, behind what was there |
| Flagfile.ParsingCollects | elide/kotlin/builder/Flagfile.kt:45-54 | the keys are exactly the flags given, and each holds exactly the values that follow it, in order |
| Flagfile.ValueKeepsItsPlace | elide/kotlin/builder/Flagfile.kt:48-53 | a value behind some flag is kept, under that flag alone, between the earlier and the later values |
| Flagfile.ListedAreValues | elide/kotlin/builder/Flagfile.kt:49-56 | no stored value begins with `--` |
| Flagfile.SinglesAreGiven | elide/kotlin/builder/Flagfile.kt:57-88 | each single value is the first one given to the flag of its name |
| Flagfile.AlternativesAreGiven | elide/kotlin/builder/Flagfile.kt:57-88 | each value with a second flag falls back on that flag exactly when the first has no value |
| Flagfile.ListsAreGiven | elide/kotlin/builder/Flagfile.kt:57-88 | each list has every value given to its flag, in order |
| Flagfile.ProcessorArgsInPlace | elide/kotlin/builder/Flagfile.kt:85 | Java compiler options that begin `-A` are passed on without it, each in its place, and no other |
| Flagfile.ParseTokens | elide/kotlin/builder/Flagfile.kt:45-89 | the loop over the tokens and the typed lookups |
| BuiltinPlugins.DetectIsExact | elide/kotlin/builder/BuiltinPlugins.kt:51-61 | the rewrites are exactly the requested jars that have a builtin, each once, each with its own builtin |
| BuiltinPlugins.NamesAreExact | elide/kotlin/builder/BuiltinPlugins.kt:64-65 | the names are the distinct builtins of the rewrites |
| BuiltinPlugins.BuiltinsAreExact | elide/kotlin/builder/BuiltinPlugins.kt:51-65 | a builtin is enabled exactly when a requested jar stands for it, and listed once |
| BuiltinPlugins.BuiltinIsOneOfFour | elide/kotlin/builder/BuiltinPlugins.kt:21-41 | only the four bundled plugins are ever named, none with a comma |
| BuiltinPlugins.BuiltinIsByName | elide/kotlin/builder/BuiltinPlugins.kt:21-41 | which jar stands for which builtin, by its base name, the first of the four that applies |
| BuiltinPlugins.BuiltinsInOrder | elide/kotlin/builder/BuiltinPlugins.kt:51-65 | builtins come in the order of the plugin classpath and behind them of the flags passed through |
| BuiltinPlugins.BasenameIsLastSegment | elide/kotlin/builder/BuiltinPlugins.kt:32-33 | the base name holds neither separator, ends the path, and is preceded by nothing or by one of them |
| BuiltinPlugins.FindBuiltin | elide/kotlin/builder/BuiltinPlugins.kt:35-41 | the scan returns the first entry whose needle is in the base name |
| BuiltinPlugins.DetectRewrites | elide/kotlin/builder/BuiltinPlugins.kt:51-61 | the loop filling the linked map |
| ElideCompile.SeparatorComesFirst | elide/kotlin/builder/ElideCompile.kt:106-137 | for every flagfile the first bare `--` of the compile command is the separator, exactly unless a native processing request carries a processor option `--` |
| ElideCompile.ProcessorOptionComesFirst | elide/kotlin/builder/ElideCompile.kt:125-128 | the exception is real: a KSP flagfile with the Java compiler option `-A--` |
| ElideCompile.BeforeIsBareOnlyByProcessor | elide/kotlin/builder/ElideCompile.kt:106-133 | no other Elide option can be a bare `--` |
| ElideCompile.PlanIs | elide/kotlin/builder/ElideCompile.kt:88-194 | when a plan is refused, when it has a source jar command, and what that command is |
| ElideCompile.BeforeGives | elide/kotlin/builder/ElideCompile.kt:106-133 | the options before the separator begin with program and tool, hold the native options and the report path, and nothing that is not counted |
| ElideCompile.CompileOptionsGive | elide/kotlin/builder/ElideCompile.kt:120-123 | native options of a request that only compiles: report and label, and no other token |
| ElideCompile.ProcessingOptionsGive | elide/kotlin/builder/ElideCompile.kt:110-128 | native options of a processing request, KSP before kapt: every directory, processor, path and option given, and no other token |
| ElideCompile.BehindGives | elide/kotlin/builder/ElideCompile.kt:135-185 | the compiler's arguments hold all that outputs, plugins, options and versions give and the flags passed through, end in the sources, and have no other token |
| ElideCompile.OutputsGive | elide/kotlin/builder/ElideCompile.kt:136-145 | output, ABI jar, classpath, module name and friend paths are given exactly when they were asked for and apply |
| ElideCompile.AbiPluginGives | elide/kotlin/builder/ElideCompile.kt:152-161 | the ABI plugin of legacy mode with its output option |
| ElideCompile.PluginOptionsGive | elide/kotlin/builder/ElideCompile.kt:173-176 | every plugin option is given behind `-P` |
| ElideCompile.VersionsGive | elide/kotlin/builder/ElideCompile.kt:179-181 | target and versions are given exactly when they were asked for |
| ElideCompile.PluginFlagCount | elide/kotlin/builder/ElideCompile.kt:152-182 | how often each jar is loaded with `-Xplugin` in the whole command, in both modes |
| ElideCompile.PluginsArePreserved | elide/kotlin/builder/ElideCompile.kt:98-182 | each requested jar is either nowhere loaded with its builtin listed exactly once in `--plugins`, or still loaded and never from both places; `--plugins` reads back to nothing else, and is the only such token of the command but for processor options |
| ElideCompile.PluginsOptionIsTheOnlyOne | elide/kotlin/builder/ElideCompile.kt:98-182 | for every flagfile the tokens of the command that begin `--plugins=` are the one for the rewrites, or none without rewrites, behind those among the options of a native processing request |
| ElideCompile.MakePlan | elide/kotlin/builder/ElideCompile.kt:88-194 | the method builds the plan, or raises where the source raises |
| ElideCompile.PlanBefore | elide/kotlin/builder/ElideCompile.kt:106-133 | appends the Elide options step by step |
| ElideCompile.PlanNative | elide/kotlin/builder/ElideCompile.kt:108-129 | the native options by kind of request |
| ElideCompile.PlanKapt | elide/kotlin/builder/ElideCompile.kt:114-119 | the kapt directories and processors in order |
| ElideCompile.PlanProcessing | elide/kotlin/builder/ElideCompile.kt:125-128 | processor path and processor options in order |
| ElideCompile.PlanBehind | elide/kotlin/builder/ElideCompile.kt:135-185 | appends the compiler's arguments, plugin loops included |
| ElideCompile.PlanPlugins | elide/kotlin/builder/ElideCompile.kt:168-172 | the loop over the plugin classpath |
| ElideCompile.PlanPluginOptions | elide/kotlin/builder/ElideCompile.kt:173-176 | the loop over the plugin options |
| ElideCompile.PlanOutputs | elide/kotlin/builder/ElideCompile.kt:136-145 | output, classpath, module and friend arguments |
| ElideCompile.PlanVersions | elide/kotlin/builder/ElideCompile.kt:179-181 | target and version arguments |
| PartialCompile.MergeIsFullExactlyWhen | benchmarks/java_partial_compile.py:140-151 | when unchanged sources emit the same classes and the partial compile emits its share, the merge equals the full compile exactly when the name test catches every vanished class and spares every class of an unchanged source |
| PartialCompile.MergeIsByName | benchmarks/java_partial_compile.py:143-146 | which classes are merged and from where, with the name test written out |
| PartialCompile.NamingMakesMergeFull | benchmarks/java_partial_compile.py:140-151 | under the naming convention the merge equals the full compile for every set of changed sources |
| PartialCompile.LeftBehind | benchmarks/java_partial_compile.py:83-88 | the stale classes of the merge are exactly the vanished ones that the name test misses |
| PartialCompile.SecondaryClassIsLeftBehind | benchmarks/java_partial_compile.py:71-90 | the secondary class of the probe is left behind, and only it |
| PartialCompile.MergeClasses | benchmarks/java_partial_compile.py:143-146 | the comprehension and the update in place |

## Left out
- CacheTransparency.CacheTransparency: takes as hypotheses an honest native compiler, no hash collision within the run, and equal argument counts where pre-images are equal and the later request has inputs; the last is shown necessary, the first two cannot be checked in the source.
- IncrementalWorker.StepEffect: deleting a stale root and creating directories before the `try` block (lines 133 to 138) succeed, and so does clearing scratch inside the `catch`; the code has no recovery for these.
- ElideWorker.NoCrossWiring: assumes that the resident answers each request once and in order, which is the contract of the singleplex protocol.
- KotlinMain.ResidentRefinesOneShot: assumes that a resident which returns did what running the command would have done; exceptions are those of type `Exception`, which the source catches.
- ElideCompile.PluginsArePreserved: assumes that no source, classpath entry or other plain value begins with `-Xplugin=`.
- PartialCompile.MergeIsFullExactlyWhen: assumes that the compile of the changed sources alone emits what the full compile emits for them (`EmitsItsShare`), and that unchanged sources emit what they emitted before; both are the compiler's to keep.
- ElideCompile.PluginsOptionIsTheOnlyOne: assumes that the program, the report path and the generated sources do not begin with `--plugins=`; none of them is a value of the flagfile.
- WorkerLoop.OutputReadsBack: asks that exception texts stay some bytes below 64 MiB, since a longer error reply is written but cannot be read back; pairing and transparency need only that they fit in a Java array.
- CacheTransparency.RepliesAreOwn: assumes that the compiler answers each request at most once; without that only the request id ties a reply to its request.
- Invalid path characters in `Path.of`, and I/O errors other than those of packing, removal, starting and sending.
- Unpaired surrogates in Java strings, which no argument from the wire contains.
- Zip byte format, SHA-256, Base64, absolute and normalised paths: parameters of the model.
- Time: shutdown hooks, `waitFor` limits, threads, and `close` of `IncrementalWorker`.
- The one-shot mode of `IncrementalWorker.main` beyond `WorkRequest.create`: expansion of `@` files and printing.
- `Main.splitConfig`, `Main.handle` and the request loop of `Main.main`: merging of configuration and file plumbing around `compileCmds`.
- `Flagfile.readTokens`, and the `raw` copy of the flag map in the request, which nothing that is modelled reads.
- `BuiltinPlugins.warning`, `ElideCompile.extractSourceJars`, and the search for the ABI plugin jar: text and file system.
- `java_partial_compile.py` beyond the merge and the ownership probe: driving the compiler and reporting.
- `Router.kt`, `Jdeps.kt`, `Fallback.kt`, `Worker.kt`, benchmarks, fixtures and packaging tools: single decisions and thin wrappers that would only add easy members.
