# Easy Services: a verified model

A Dafny model of the parts of Easy Services that are hardest to get right, with
proofs about them. `dafny verify dfyconfig.toml` checks all of it.

- **The tcpx protocol.** `Channels` is a reliable byte channel that hands out
  arbitrary short reads. `BlockStreams` cuts writes into length-prefixed blocks
  and puts them together again. `Headers` holds the header encoders and decoders
  (modules `DataStreams`, `TcpxHeaders`, `DefaultHeaders`). `Connections` runs
  whole connections, from the calls of a client to its answers.
- **The naming tree.** `Names` prints and parses names. `TreeContexts` is the
  tree of mutable tables, proved to be a prefix-closed map from paths
  (`NameSpaces`). `Sessions` adds the access rules (`SecureContexts`) and the life
  of services bound for sessions. `SharedContexts` counts the references to
  objects shared behind links.
- **Graphs with cycles.** `Loaders` is the module loader. `ClassInfos` builds and
  caches class descriptions, `Dependencies` collects what they depend on.
  `Descriptors` sorts classes (`ClassOrders`) and prints and parses method
  identifiers (`MethodIdentifiers`). `ObjectModels` checks values against
  recursive definitions.
- **Threads.** `QueueStreams` is the stream between a network thread and a reader,
  `WriteLocks` the lock protocol of the resource cache. Both are state machines
  over the steps that other threads can see, together with the classes whose
  methods take those steps.
- **Generic types.** `GenericTypes` reads types from a list in prefix order.

`Options`, `Sequences` and `Strings` hold what the others share.

## Where the code does less than it seems to

- Class descriptions are equal when their simple names are, and method
  descriptions when those of all their types are. The dependency closure is
  complete if and only if nothing goes missing with the methods and field types a
  description does not keep, and the names of what is wanted are apart
  (`Dependencies.GetDependencies`). It is not for two classes of one name
  (`Dependencies.EqualNamesLoseOne`), for an overload on `int` and
  `java.lang.Number` (`Dependencies.OverloadLosesOne`), nor for accessors of
  different types (`Dependencies.AccessorsLoseOne`).
- The single-byte read of a queue stream fails on an empty buffer, and on nothing
  else (`QueueStreams.QueueInputStream.ReadByte`).
- The waiting counter of the cache is an `int`. A timeout above 2147483599 makes
  it wrap around, and there are runs in which a waiter sleeps too often if and
  only if the timeout is that long (`WriteLocks.LimitHoldsIff`).
- The cut-off in `checkDefinition` accepts values a recursive model should
  reject (`ObjectModels.CutOffAcceptsTooMuch`). The checker is exact where it does
  not rely on a cut-off away from its path (`ObjectModels.ExactWithoutCutOff`),
  and wrong exactly where it rests on one that the rules reject
  (`ObjectModels.ExactIff`).
- A collision of unique names makes `SharedContext.bind` leave a link behind that
  is counted nowhere (`SharedContexts.SharedContext.Bind`) and leads to the other
  object (`SharedContexts.CollisionMisleads`).
- A call whose method or deserializer throws an `IOException` gets no reply, and
  the connection ends, whatever its header says. Every call of a connection is
  answered exactly under the condition of `Connections.AllAnsweredIff`;
  `Connections.AbortedUnanswered` has two calls of which neither is.
- A result stays bound behind a failed call, whose client never learns the name,
  exactly under the condition of `Sessions.LeaksIff`;
  `Sessions.ClosedTwiceLeaks` is such a call.
- In a strict registry a result is never bound, because nothing makes the context
  of a session (`Sessions.RefsAreBoundIff`).
- A load that fails leaves its modules on the stack. A later load that reaches one
  of them is refused, loadable or not (`Loaders.Loader.Load`).
- An array of one definition makes a property optional, and lets through besides
  what passes for undefined or null: an object without a constructor, whatever the
  definition (`ObjectModels.OneIsItsDefinition`).
- Two accessors of one name make a field readable and writable, two getters as
  well (`ClassInfos.ClassCache.FieldsAreMeant`).
- A method name with an opening parenthesis does not survive printing and parsing
  (`MethodIdentifiers.ParseInvertsToString`), nor does a name component with a
  slash (`Names.ParsePrint`).

## Model

| member | source | states |
|---|---|---|
| `Channels.IntRoundTrip` | easy-services-util/src/main/java/org/zenframework/easyservices/util/io/BlockInputStream.java:50-56 | an `int` written as four bytes reads back as itself, `-1` and the other negatives included, through the shift into the sign bit |
| `Channels.IntBytes` | easy-services-util/src/main/java/org/zenframework/easyservices/util/io/BlockOutputStream.java:136-141 | the high byte is written first, and a negative `int` as its complement |
| `BlockStreams.BlockOutputStream.Open` | easy-services-util/src/main/java/org/zenframework/easyservices/util/io/BlockOutputStream.java:52-58 | the stream is refused, with nothing sent, exactly when the block size is not positive |
| `BlockStreams.BlockOutputStream.Write` | easy-services-util/src/main/java/org/zenframework/easyservices/util/io/BlockOutputStream.java:66-71 | one byte, the low eight bits of the argument, joins what has been written, whether or not the buffer is flushed on the way |
| `BlockStreams.BlockOutputStream.WriteArray` | easy-services-util/src/main/java/org/zenframework/easyservices/util/io/BlockOutputStream.java:89-105 | exactly the given slice joins what has been written: copied to the buffer, after a flush, or sent past it as a block of its own |
| `BlockStreams.BlockOutputStream.FlushBuffer` | easy-services-util/src/main/java/org/zenframework/easyservices/util/io/BlockOutputStream.java:126-134 | what has been written stays the same sequence while it moves from the buffer to the channel, and no empty block is sent (`Valid`) |
| `BlockStreams.BlockOutputStream.Close` | easy-services-util/src/main/java/org/zenframework/easyservices/util/io/BlockOutputStream.java:119-124 | the channel holds one complete frame more than when the stream was opened: the size, non-empty blocks, the terminator; its payload is all that was written |
| `BlockStreams.FramePrefixFree` | easy-services-util/src/main/java/org/zenframework/easyservices/util/io/BlockInputStream.java:58-77 | a byte stream starts with at most one frame: two frames with continuations that spell the same bytes are the same frame with the same continuation |
| `BlockStreams.FrameBytes` | easy-services-util/src/main/java/org/zenframework/easyservices/util/io/BlockOutputStream.java:52-134 | what a frame of two blocks is, byte by byte: the size, each block behind its length, and -1 at the end |
| `BlockStreams.BlockInputStream.PrepareBlock` | easy-services-util/src/main/java/org/zenframework/easyservices/util/io/BlockInputStream.java:58-77 | over a channel that hands out arbitrary non-empty pieces, finds a byte exactly when one is left in the frame, and otherwise stands just past the terminator |
| `BlockStreams.BlockInputStream.Read` | easy-services-util/src/main/java/org/zenframework/easyservices/util/io/BlockInputStream.java:16-19 | delivers the next byte of the payload, or -1 exactly at its end |
| `BlockStreams.BlockInputStream.ReadInto` | easy-services-util/src/main/java/org/zenframework/easyservices/util/io/BlockInputStream.java:21-37 | fills the slice with the next bytes of the payload and touches no other element; it falls short only at the end, which it reports exactly when nothing is left; a slice that is none of the array's changes nothing |
| `BlockStreams.BlockInputStream.Close` | easy-services-util/src/main/java/org/zenframework/easyservices/util/io/BlockInputStream.java:44-48 | wherever reading stopped, the channel is left just past the terminator of this frame |
| `Connections.WriteBody` | easy-services-util/src/main/java/org/zenframework/easyservices/util/io/BlockOutputStream.java:58-124 | any interleaving of byte writes, array writes of any length and flushes, ended by one close, sends one frame whose payload is the concatenation of the writes |
| `Connections.ReadBody` | easy-services-util/src/main/java/org/zenframework/easyservices/util/io/BlockInputStream.java:16-37 | any sequence of read sizes delivers the payload in order, and what is delivered with what is left is the payload |
| `Connections.WritesAddUp` | easy-services-util/src/main/java/org/zenframework/easyservices/util/io/BlockOutputStream.java:66-105 | what a serializer writes is its bytes, cut to eight bits, and its arrays, one behind the other |
| `Connections.ReadsAddUp` | easy-services-util/src/main/java/org/zenframework/easyservices/util/io/BlockInputStream.java:21-37 | each read goes on where the ones before it stopped, and falls short only where the body ends |
| `DataStreams.UtfCodec` | easy-services-core/src/main/java/org/zenframework/easyservices/tcp/TcpxRequestHeader.java:82-117 | a text within the 65535-byte bound reads back as written and leaves what follows in place |
| `DataStreams.UtfBytes` | easy-services-core/src/main/java/org/zenframework/easyservices/tcp/TcpxRequestHeader.java:102-117 | a text is sent as its length in two bytes, the high one first, and its bytes; a flag as 0 or 1 |
| `TcpxHeaders.RequestCodec` | easy-services-core/src/main/java/org/zenframework/easyservices/tcp/TcpxRequestHeader.java:82-117 | decoding the encoding of any request header gives the header, with an absent session id as an empty one, and leaves the rest of the bytes untouched |
| `TcpxHeaders.RequestRefused` | easy-services-core/src/main/java/org/zenframework/easyservices/tcp/TcpxRequestHeader.java:88-96 | a header that names a class not to be found is refused, wherever in the list that is |
| `TcpxHeaders.RequestBytes` | easy-services-core/src/main/java/org/zenframework/easyservices/tcp/TcpxRequestHeader.java:102-117 | two request headers byte by byte: the order of the fields, the types behind their number or -1 for none, and the order of the flags |
| `TcpxHeaders.TcpxRequestHeader.Read` | easy-services-core/src/main/java/org/zenframework/easyservices/tcp/TcpxRequestHeader.java:82-99 | reading off the channel in steps is decoding, errors included: unknown parameter classes, a truncated header, a missing parameter array kept from before |
| `TcpxHeaders.TcpxRequestHeader.Write` | easy-services-core/src/main/java/org/zenframework/easyservices/tcp/TcpxRequestHeader.java:102-117 | sends exactly the encoding, and succeeds exactly when every text fits |
| `TcpxHeaders.ResponseCodec` | easy-services-core/src/main/java/org/zenframework/easyservices/tcp/TcpxResponseHeader.java:39-51 | decoding the encoding of any response header gives the header and leaves the rest in place |
| `TcpxHeaders.ResponseBytes` | easy-services-core/src/main/java/org/zenframework/easyservices/tcp/TcpxResponseHeader.java:45-51 | a response header byte by byte: the session and then the flag |
| `DefaultHeaders.HeaderCodec` | easy-services-net/src/main/java/org/zenframework/easyservices/net/DefaultHeader.java:62-86 | reading what was written from any ordered multi-valued field map restores keys, order and value lists and consumes exactly the bytes written |
| `DefaultHeaders.HeaderBytes` | easy-services-net/src/main/java/org/zenframework/easyservices/net/DefaultHeader.java:77-86 | a header of two fields byte by byte: the number of fields, and for each its name and its values behind their number |
| `DefaultHeaders.PutMeans` | easy-services-net/src/main/java/org/zenframework/easyservices/net/DefaultHeader.java:62-74 | a field read again replaces the values it had, at its place; a new one goes last |
| `DefaultHeaders.DefaultHeader.Read` | easy-services-net/src/main/java/org/zenframework/easyservices/net/DefaultHeader.java:62-74 | the nested loops fill the map as the decoder says, whatever the bytes are, a key met again replacing the values it had |
| `DefaultHeaders.DefaultHeader.Write` | easy-services-net/src/main/java/org/zenframework/easyservices/net/DefaultHeader.java:77-86 | sends exactly the encoding of the fields in order, and succeeds exactly when all of it fits |
| `Connections.ServiceRequest.CacheInput` | easy-services-core/src/main/java/org/zenframework/easyservices/ServiceRequest.java:31-44 | caches the whole body of the request, byte for byte |
| `Connections.ServiceRequest.GetInputStream` | easy-services-core/src/main/java/org/zenframework/easyservices/ServiceRequest.java:46-52 | the cached bytes from their start each time, or else one live stream that is opened once and keeps its place |
| `Connections.GetInvocationContext` | easy-services-core/src/main/java/org/zenframework/easyservices/impl/ServiceInvokerImpl.java:273-312 | every deserialization attempt reads the body from its first byte, because the body is cached before each attempt another may follow; candidates are tried up to the first that does anything but misfit, or whose misfit is final |
| `Connections.HandlingMeans` | easy-services-core/src/main/java/org/zenframework/easyservices/impl/ServiceInvokerImpl.java:273-312 | told from the candidates one by one: candidate k is tried if and only if all before it misfit and may be followed; a call succeeds if and only if one that is tried fits and the method returns; it aborts if and only if one that is tried breaks, or fits and the method throws an `IOException` |
| `Connections.Invoke` | easy-services-core/src/main/java/org/zenframework/easyservices/impl/ServiceInvokerImpl.java:69-139 | whatever part of the body was read, cached or not, and however the call ends, the channel ends up just past the request; one complete reply frame is sent, unless the method or the deserializer throws an `IOException`: then nothing is, and the exception goes on |
| `Connections.Respond` | easy-services-core/src/main/java/org/zenframework/easyservices/tcp/AbstractTcpServiceResponse.java:20-24 | the response header is followed by the framed body, in that order |
| `Connections.HandleRequest` | easy-services-core/src/main/java/org/zenframework/easyservices/tcp/AbstractTcpServiceRequestHandler.java:37-47 | decodes exactly the header and body sent; the call is handled and answered under the session id its header names, and under a new one when that is absent or empty; the answer says success exactly when a candidate tried fits and the method returns; sends one reply unless the call aborts, and keeps the connection, gives it up or throws as the header and the call have it; a header with an unknown class, or none at all, throws |
| `Connections.Serve` | easy-services-net/src/main/java/org/zenframework/easyservices/net/SimpleTcpServer.java:94-108 | serves the messages of a connection in order up to the first that ends it, and answers those that do not abort; it then leaves everything behind that message, but for one byte that it reads when the message gave the connection up |
| `Connections.AllAnsweredIff` | easy-services-core/src/main/java/org/zenframework/easyservices/impl/ServiceInvokerImpl.java:100-139 | every call of a connection is answered if and only if all can be read, none aborts, and none but the last gives the connection up or fails in writing its reply |
| `Connections.AbortedUnanswered` | easy-services-core/src/main/java/org/zenframework/easyservices/impl/ServiceInvokerImpl.java:113-121 | it happens: of two calls that both keep the connection the first throws an `IOException`, and neither is answered |
| `Connections.ReceiveAll` | easy-services-core/src/main/java/org/zenframework/easyservices/tcp/TcpxClientRequest.java:42-60 | the client takes the answers off the channel in order, and the call behind the last of them meets the end of the stream |
| `Connections.SendCall` | easy-services-core/src/main/java/org/zenframework/easyservices/tcp/TcpxClientRequest.java:37-57 | the client sends the header and then the framed body of the call |
| `Connections.Exchange` | easy-services-core/src/main/java/org/zenframework/easyservices/tcp/AbstractTcpServiceRequestHandler.java:37-47 | for any list of calls on one connection, handlers reading and caching any part of each body and ending in any way: the server sees exactly the headers and bodies of the calls that can be read with none before them ending the connection, the client gets a reply to exactly those of them that do not abort, and answer i is the reply made to call i, under the session its header names or a new one, two calls that name one session sharing it, and with success exactly when a candidate fits and the method returns |
| `Names.ParsePrint` | easy-services-jndi/src/main/java/org/zenframework/easyservices/jndi/NameImpl.java:21-50 | parsing the text of a name gives its components back if and only if no component holds a slash and the last one is not empty |
| `Names.PrintParse` | easy-services-jndi/src/main/java/org/zenframework/easyservices/jndi/NameImpl.java:21-50 | the components of a text print as the text if and only if it does not end in a slash |
| `Names.SlashesPart` | easy-services-jndi/src/main/java/org/zenframework/easyservices/jndi/NameImpl.java:47-50 | slashes part the components; one in front leaves an empty component, those at the end leave none |
| `Names.Render` | easy-services-jndi/src/main/java/org/zenframework/easyservices/jndi/NameImpl.java:21-29 | the constructor loop builds the text of the components |
| `Names.StartsWith` | easy-services-jndi/src/main/java/org/zenframework/easyservices/jndi/NameImpl.java:107-114 | is true exactly of prefixes, component by component |
| `TreeContexts.TreeContext.GetParentBindings` | easy-services-jndi/src/main/java/org/zenframework/easyservices/jndi/TreeContext.java:314-330 | walks to the table of the parent, making contexts on the way unless strict; when it fails, for the reason the flat map gives, nothing has changed |
| `TreeContexts.TreeContext.Lookup` | easy-services-jndi/src/main/java/org/zenframework/easyservices/jndi/TreeContext.java:57-64 | on the heap of tables answers as the flat map does and changes nothing that can be looked up |
| `TreeContexts.TreeContext.LookupLink` | easy-services-jndi/src/main/java/org/zenframework/easyservices/jndi/TreeContext.java:245-259 | follows a link as the flat map does and changes nothing |
| `TreeContexts.TreeContext.Bind` | easy-services-jndi/src/main/java/org/zenframework/easyservices/jndi/TreeContext.java:72-80 | the tree after it is the flat map after a bind, and the same error comes out; a failed bind leaves the tree as it was |
| `TreeContexts.TreeContext.Rebind` | easy-services-jndi/src/main/java/org/zenframework/easyservices/jndi/TreeContext.java:88-99 | replaces or adds the one leaf, as in the flat map |
| `TreeContexts.TreeContext.Unbind` | easy-services-jndi/src/main/java/org/zenframework/easyservices/jndi/TreeContext.java:107-116 | removes exactly what is at or below the name, and is content when nothing is |
| `TreeContexts.TreeContext.DestroySubcontext` | easy-services-jndi/src/main/java/org/zenframework/easyservices/jndi/TreeContext.java:208-223 | on a context clears its table and removes exactly its subtree |
| `NameSpaces.LinkLeadsOn` | easy-services-jndi/src/main/java/org/zenframework/easyservices/jndi/TreeContext.java:245-259 | a name bound to a link leads to what is bound under the name it holds, once; one bound to anything else to that; and no other name leads anywhere |
| `NameSpaces.FirstObstacle` | easy-services-jndi/src/main/java/org/zenframework/easyservices/jndi/TreeContext.java:314-330 | a walk fails at the first prefix that names a leaf, or is missing when strict, and says which it was |
| `NameSpaces.BindKeeps` | easy-services-jndi/src/main/java/org/zenframework/easyservices/jndi/TreeContext.java:72-80 | binding adds the target and its missing prefixes and nothing else, keeps every other path, and succeeds exactly when the name is free and no leaf (no gap, when strict) is above it |
| `NameSpaces.BindLeadsThere` | easy-services-jndi/src/main/java/org/zenframework/easyservices/jndi/TreeContext.java:72-80 | after a bind that succeeds the name is bound to the object with contexts all the way; a name taken is the answer exactly for the empty and the bound ones |
| `NameSpaces.RebindKeeps` | easy-services-jndi/src/main/java/org/zenframework/easyservices/jndi/TreeContext.java:88-99 | a rebind that succeeds binds the name anew, takes away what was below it, adds missing contexts, keeps every other path, and succeeds exactly when nothing above the name is a leaf (or missing, when strict) |
| `NameSpaces.UnbindUndoesBind` | easy-services-jndi/src/main/java/org/zenframework/easyservices/jndi/TreeContext.java:107-116 | unbinding what was just bound leaves the space as it was but for the contexts made on the way |
| `NameSpaces.UnbindKeeps` | easy-services-jndi/src/main/java/org/zenframework/easyservices/jndi/TreeContext.java:208-223 | removal drops the subtree and keeps the space prefix-closed |
| `NameSpaces.RemovalMeans` | easy-services-jndi/src/main/java/org/zenframework/easyservices/jndi/TreeContext.java:107-116 | a removal takes away exactly what is at or below the name, and complains exactly of the empty name, of a name not bound though contexts lead to it, and of a leaf that was to be destroyed as a context |
| `SecureContexts.SessionMayTouch` | easy-services-core/src/main/java/org/zenframework/easyservices/impl/SessionContextManagerImpl.java:21-46 | with the rules built for a session, a name may be looked up, bound and unbound if and only if it is outside the session domain or inside that session |
| `SecureContexts.SecureContext.CheckAccess` | easy-services-jndi/src/main/java/org/zenframework/easyservices/jndi/SecureContext.java:181-192 | the loop over the rules decides as the first matching rule does, and refuses when none matches |
| `SecureContexts.FirstMatchDecides` | easy-services-jndi/src/main/java/org/zenframework/easyservices/jndi/SecureContext.java:181-192 | access is granted if and only if some rule matches, none before it does, and it has the bit that is asked for |
| `SecureContexts.OperationKeepsOthers` | easy-services-jndi/src/main/java/org/zenframework/easyservices/jndi/SecureContext.java:117-120 | no lookupLink, bind, unbind or destroySubcontext through the context of one session changes a path of another |
| `SecureContexts.SessionsAreIsolated` | easy-services-jndi/src/main/java/org/zenframework/easyservices/jndi/SecureContext.java:50-75 | neither does any run of them |
| `SecureContexts.OperateAll` | easy-services-jndi/src/main/java/org/zenframework/easyservices/jndi/SecureContext.java:50-145 | on the heap tree, any run of operations through the context of one session leaves every other session what it had |
| `Sessions.ServiceSession.Bind` | easy-services-jndi/src/main/java/org/zenframework/easyservices/jndi/SecureContext.java:49-53 | binds for a session exactly when its rules allow the name, the name is free, and no leaf (no gap, when strict) is above it; else nothing changes |
| `Sessions.ServiceSession.Unbind` | easy-services-jndi/src/main/java/org/zenframework/easyservices/jndi/SecureContext.java:71-75 | takes a name and all below it away exactly when the rules allow it and it is bound, or nothing leads to where it would be; else nothing changes |
| `Sessions.ServiceSession.Invalidate` | easy-services-core/src/main/java/org/zenframework/easyservices/ServiceSession.java:37-43 | removes the whole subtree of the session and nothing else |
| `Sessions.ServiceInvoker.LookupService` | easy-services-core/src/main/java/org/zenframework/easyservices/impl/ServiceInvokerImpl.java:253-260 | finds exactly the services a link or a binding leads to, changing nothing |
| `Sessions.ServiceInvoker.FindAndReplaceRefs` | easy-services-core/src/main/java/org/zenframework/easyservices/impl/ServiceInvokerImpl.java:370-389 | succeeds exactly when every reference among the arguments leads to something |
| `Sessions.ServiceInvoker.BindDynamicService` | easy-services-core/src/main/java/org/zenframework/easyservices/impl/ServiceInvokerImpl.java:262-271 | returns the name of the call as text exactly when it leads somewhere already, and then binds nothing, or can be bound, and then binds the result there; else fails and changes nothing |
| `Sessions.ServiceInvoker.CloseArgs` | easy-services-core/src/main/java/org/zenframework/easyservices/impl/ServiceInvokerImpl.java:221-251 | unbinds the arguments that the call closes, in order, up to the first that is no reference or cannot be unbound in the tree it meets; whether all were closed, and what was, is settled by the tree before |
| `Sessions.ServiceInvoker.CloseAll` | easy-services-core/src/main/java/org/zenframework/easyservices/impl/ServiceInvokerImpl.java:221-251 | closes the service itself, when the method closes it, and then the arguments |
| `Sessions.ServiceInvoker.Invoke` | easy-services-core/src/main/java/org/zenframework/easyservices/impl/ServiceInvokerImpl.java:69-139 | the reply and all that happens to the tree are determined by the tree before: nothing unless all is found and the method returns, no reply at all when it throws an `IOException`, then the result bound, then the closes up to the first that fails; only what is at or below a name the call closes is gone afterwards, and all of that when it succeeds |
| `Sessions.CallMeans` | easy-services-core/src/main/java/org/zenframework/easyservices/impl/ServiceInvokerImpl.java:221-251 | told from the call alone: what is gone after it was at or below the service, if the method closes it, or an argument that closes; when it succeeds nothing at or below these is left, and every argument that closes was a reference; what is new is its result, with the contexts above it |
| `Sessions.FirstIsClosed` | easy-services-core/src/main/java/org/zenframework/easyservices/impl/ServiceInvokerImpl.java:228-241 | the service is closed before the arguments, and these in their order: what comes first is closed, if it is bound and may be, whatever becomes of the others |
| `Sessions.CallGoesThrough` | easy-services-core/src/main/java/org/zenframework/easyservices/impl/ServiceInvokerImpl.java:69-139 | a call whose service and references are there succeeds, and unbinds the service if its method closes it |
| `Sessions.MissingRefuses` | easy-services-core/src/main/java/org/zenframework/easyservices/impl/ServiceInvokerImpl.java:253-260 | a call to a service that is not there, one with a reference to nothing or an absolute one, and one whose method throws fail, and change nothing |
| `Sessions.BoundIsLive` | easy-services-core/src/main/java/org/zenframework/easyservices/impl/ServiceInvokerImpl.java:221-271 | after any history, what is bound inside a session is what was issued to it and neither closed nor invalidated since, with the object issued |
| `Sessions.ServiceInvoker.RunAll` | easy-services-core/src/main/java/org/zenframework/easyservices/impl/ServiceInvokerImpl.java:221-271 | over every run of invocations and invalidations by any number of sessions, the heap tree and the replies are those of the history that the tree before determines, and inside every session the tree holds exactly what that history issued and neither closed nor swept away; each call takes away only what it closes, and all of that when it succeeds |
| `Sessions.LedgerOfRun` | easy-services-core/src/main/java/org/zenframework/easyservices/impl/ServiceInvokerImpl.java:221-271 | the same of the history alone: bound inside a session is what was issued to it minus what was closed since, whatever the calls |
| `Sessions.CallsAreDone` | easy-services-core/src/main/java/org/zenframework/easyservices/impl/ServiceInvokerImpl.java:221-251 | in any run, each call takes away only what is at or below what it closes, and all of that when it succeeds |
| `Sessions.RefsAreBoundIff` | easy-services-core/src/main/java/org/zenframework/easyservices/impl/ServiceInvokerImpl.java:262-271 | in any run, a call that returns a reference has it bound if and only if everything it mentions is found and the registry is not strict |
| `Sessions.ReturnedNamesLeadBack` | easy-services-core/src/main/java/org/zenframework/easyservices/impl/ServiceInvokerImpl.java:262-271 | in any run, a name answered to a client was issued for the object returned, and leads back to it, as text, for as long as it is live |
| `Sessions.NameLeadsBack` | easy-services-core/src/main/java/org/zenframework/easyservices/impl/ServiceInvokerImpl.java:262-271 | the text returned for a bound service leads to its object when session id and component are free of slashes and the component is not empty; otherwise it does not even parse to the path that was bound |
| `Sessions.OthersStayLive` | easy-services-core/src/main/java/org/zenframework/easyservices/ServiceSession.java:37-43 | whatever one session issues, closes or invalidates, what is live in another stays live |
| `Sessions.RunKeepsOthersLive` | easy-services-core/src/main/java/org/zenframework/easyservices/ServiceSession.java:37-43 | what is live in a session at any point of a run stays live through whatever other guarded sessions do in the rest of it |
| `Sessions.LeaksIff` | easy-services-core/src/main/java/org/zenframework/easyservices/impl/ServiceInvokerImpl.java:221-271 | a call fails and yet leaves its result bound if and only if all it mentions is found, a reference is returned and can be bound, and something listed cannot be closed when its turn comes while nothing closed before it takes the new name along |
| `Sessions.ClosedTwiceLeaks` | easy-services-core/src/main/java/org/zenframework/easyservices/impl/ServiceInvokerImpl.java:221-271 | it happens: a call that closes one service twice, in a tree of that service alone |
| `SharedContexts.SharedContext.Bind` | easy-services-jndi/src/main/java/org/zenframework/easyservices/jndi/SharedContext.java:35-57 | answers and binds as a plain table would; an object of the same unique name already shared is the one thing that stops it half way, and then the link left behind is counted nowhere |
| `SharedContexts.SharedContext.Unbind` | easy-services-jndi/src/main/java/org/zenframework/easyservices/jndi/SharedContext.java:108-118 | answers and unbinds as a plain table would, and the shared object goes with the last name linked to it |
| `SharedContexts.SharedContext.Rename` | easy-services-jndi/src/main/java/org/zenframework/easyservices/jndi/SharedContext.java:126-141 | moves a binding as in a plain table, the referrer with it, and refuses to cross the border of the private names |
| `SharedContexts.SharedContext.LookupLink` | easy-services-jndi/src/main/java/org/zenframework/easyservices/jndi/PlainContext.java:242-256 | any name leads, through its link if it has one, to the object last bound there |
| `SharedContexts.SharedContext.AddReferrer` | easy-services-jndi/src/main/java/org/zenframework/easyservices/jndi/SharedContext.java:169-178 | adds one referrer of one name |
| `SharedContexts.SharedContext.RemoveReferrer` | easy-services-jndi/src/main/java/org/zenframework/easyservices/jndi/SharedContext.java:180-189 | removes one referrer and returns how many are left, none when there never was one |
| `SharedContexts.SharedContext.Run` | easy-services-jndi/src/main/java/org/zenframework/easyservices/jndi/SharedContext.java:35-141 | over any run, with unique names for distinct objects, the context answers as a plain table and keeps links, shared objects and counts in step with it, each step being what the names alone say |
| `SharedContexts.RunMeans` | easy-services-jndi/src/main/java/org/zenframework/easyservices/jndi/SharedContext.java:35-141 | what such a table does, told step by step from the names: what may not be touched, what has to be bound or free, and which names change |
| `SharedContexts.SharedIffReferred` | easy-services-jndi/src/main/java/org/zenframework/easyservices/jndi/SharedContext.java:108-118 | a shared entry exists if and only if a private name is bound to an object of that unique name |
| `SharedContexts.PrivateNamesAreLinks` | easy-services-jndi/src/main/java/org/zenframework/easyservices/jndi/SharedContext.java:35-57 | in such a table a private name is a link to the one entry its object is shared under, by its unique name; any other name holds its object; and nothing else is there |
| `SharedContexts.UnboundPrivately` | easy-services-jndi/src/main/java/org/zenframework/easyservices/jndi/SharedContext.java:108-118 | taking a private name away keeps the recorded referrers exactly the private names linked, and the shared entry exactly while there is one |
| `SharedContexts.RenamedPrivately` | easy-services-jndi/src/main/java/org/zenframework/easyservices/jndi/SharedContext.java:126-141 | so does moving one |
| `SharedContexts.LeftLinkIsUncounted` | easy-services-jndi/src/main/java/org/zenframework/easyservices/jndi/SharedContext.java:41-49 | after a collision of unique names no set of bindings fits the table and the counts: the invariant is lost exactly then |
| `SharedContexts.CollisionMisleads` | easy-services-jndi/src/main/java/org/zenframework/easyservices/jndi/SharedContext.java:41-49 | it happens: two objects of one unique name, and right after the failed bind the new name leads to the other object |
| `SharedContexts.NoCollision` | easy-services-jndi/src/main/java/org/zenframework/easyservices/jndi/SharedContext.java:165-167 | distinct unique names rule the collision out |
| `Loaders.NormalizeMeans` | easy-services-js/src/main/resources/export/lib/require/require.js:4-6 | a name stays as it is if and only if its last three characters are `.js` in any case; otherwise it gains `.js` |
| `Loaders.Loader.Require` | easy-services-js/src/main/resources/export/lib/require/require.js:4-54 | returns with the stack restored and the module cached, or fails with a stack that runs into a cycle, a missing module or one that an earlier failure left; a name already on the stack always fails |
| `Loaders.Loader.Load` | easy-services-js/src/main/resources/export/lib/require/require.js:4-54 | whatever was loaded or failed to load before, ends on any finite graph, and succeeds if and only if no cycle, no missing module and nothing that an earlier failure left on the stack can be reached; then the cache gains exactly what can be reached, each module run after all it depends on, and none is ever entered twice |
| `Loaders.StemIsFile` | easy-services-js/src/main/resources/export/lib/require/require.js:4-6 | a name without the suffix can be loaded exactly when the one with it can, and reaches the same modules |
| `Loaders.StemLoadsAlone` | easy-services-js/src/main/resources/export/lib/require/require.js:4-6 | a module that requires nothing can be loaded by its name without the suffix, and nothing else with it (`LoadStem` does so) |
| `Loaders.FinishedIsLoadable` | easy-services-js/src/main/resources/export/lib/require/require.js:48-52 | modules finished in an order where dependencies come first reach no cycle |
| `Loaders.StuckIsNotLoadable` | easy-services-js/src/main/resources/export/lib/require/require.js:12-16 | a failed stack exhibits a path from its first module back into itself, to a missing module, or to one that an earlier failure left there |
| `ClassInfos.ClassCache.GetClassRef` | easy-services-util/src/main/java/org/zenframework/easyservices/util/cls/ClassInfo.java:225-277 | ends on cyclic classes, never replaces a cached description, strips and counts array dimensions, and refers to the one cached description of the class, which holds the fields and the set of methods that inspection leaves; `FieldsAreMeant`, `FieldTypesAreMeant` and `MethodsAreDescribed` say what these are |
| `ClassInfos.ClassCache.InspectFields` | easy-services-util/src/main/java/org/zenframework/easyservices/util/cls/ClassInfo.java:225-277 | describes the non-static fields as readable and writable, with references to cached descriptions |
| `ClassInfos.ClassCache.InspectAccessor` | easy-services-util/src/main/java/org/zenframework/easyservices/util/cls/ClassInfo.java:284-301 | a getter or setter makes a field, and a second accessor of the name makes it readable and writable |
| `ClassInfos.AccessorMeans` | easy-services-util/src/main/java/org/zenframework/easyservices/util/cls/ClassInfo.java:284-301 | which methods are getters and setters, and of which field |
| `ClassInfos.ClassCache.FieldsAreMeant` | easy-services-util/src/main/java/org/zenframework/easyservices/util/cls/ClassInfo.java:225-301 | what is cached for a class, told from its members: a field for exactly each name that a non-static public field or an accessor makes; readable if and only if its one accessor is a getter, writable if and only if that is a setter, and both when a public field or two accessors make it |
| `ClassInfos.ClassCache.FieldTypesAreMeant` | easy-services-util/src/main/java/org/zenframework/easyservices/util/cls/ClassInfo.java:239-265 | such a field is of the type of the last public field of its name, or else of its second accessor |
| `ClassInfos.ClassCache.MethodsAreDescribed` | easy-services-util/src/main/java/org/zenframework/easyservices/util/cls/ClassInfo.java:240-272 | the methods described are members that are no accessors, each of those is equal to one described, and no two described are equal |
| `ClassInfos.SameTypeMeans` | easy-services-util/src/main/java/org/zenframework/easyservices/util/cls/ClassRef.java:61-69 | references are equal exactly when they are to classes of one simple name through as many array types |
| `ClassInfos.ClassCache.AddMethod` | easy-services-util/src/main/java/org/zenframework/easyservices/util/cls/ClassInfo.java:48-50 | a method joins the set unless one equal to it by simple names is there; the other descriptions stay complete |
| `ClassInfos.EqualAsSame` | easy-services-util/src/main/java/org/zenframework/easyservices/util/cls/MethodInfo.java:39-48 | descriptions of two methods are equal exactly when the names of the methods and the simple names and dimensions of all their types are |
| `ClassInfos.ClassCache.ReferencesAreCanonical` | easy-services-util/src/main/java/org/zenframework/easyservices/util/cls/ClassInfo.java:225-277 | once no description is pending, every reference in a cached one leads to the description cached for its class, although each is published before it is filled |
| `Dependencies.InfoSet.FillDependencies` | easy-services-util/src/main/java/org/zenframework/easyservices/util/cls/ClassInfo.java:97-122 | ends on any class graph; adds only what the class reaches, nothing of it half done, or only what it depends on directly when not recursive; leaves nothing the class mentions unsettled |
| `Dependencies.GetDependencies` | easy-services-util/src/main/java/org/zenframework/easyservices/util/cls/ClassInfo.java:91-136 | returns only what the class reaches, by what reflection says, in one step or more, or depends on directly when not recursive; it returns all of that if and only if whatever one description on the way hides another mentions, and no two of the classes wanted have the same simple name |
| `Dependencies.ClientDependencies` | easy-services-js/src/main/java/org/zenframework/easyservices/js/client/JSClientGenerator.java:16-21 | seeding with several roots and expanding each gives only the roots and what they reach, and all of it under the same condition |
| `Dependencies.KeptIsReflected` | easy-services-util/src/main/java/org/zenframework/easyservices/util/cls/ClassInfo.java:225-277 | a description mentions nothing that reflection does not |
| `Dependencies.AllKeptIff` | easy-services-util/src/main/java/org/zenframework/easyservices/util/cls/ClassInfo.java:97-122 | all that is reached by what reflection says is reached through what the descriptions keep if and only if nothing goes missing |
| `Dependencies.HidesNothing` | easy-services-util/src/main/java/org/zenframework/easyservices/util/cls/ClassInfo.java:240-272 | the description of a class hides nothing where methods equal by simple names agree in their classes, and so do all members that make a field of one name, simple classes being passed over |
| `Dependencies.CompleteWhereAgreed` | easy-services-util/src/main/java/org/zenframework/easyservices/util/cls/ClassInfo.java:91-122 | so the closure is complete where the classes reached agree in themselves and names are apart |
| `Dependencies.OverloadLosesOne` | easy-services-util/src/main/java/org/zenframework/easyservices/util/cls/ClassInfo.java:48-50 | it happens: of `f(int)` and `f(java.lang.Number)` one is dropped, and with it the one class reached |
| `Dependencies.AccessorsLoseOne` | easy-services-util/src/main/java/org/zenframework/easyservices/util/cls/ClassInfo.java:250-263 | it happens with accessors too: of a getter and a setter of different types the description keeps one type |
| `Dependencies.CacheReachesKept` | easy-services-util/src/main/java/org/zenframework/easyservices/util/cls/ClassInfo.java:225-277 | what the descriptions in a settled cache reach is what their classes reach through what is kept |
| `Dependencies.HoldsAllIffNamesApart` | easy-services-util/src/main/java/org/zenframework/easyservices/util/cls/ClassInfo.java:129-136 | a set that tells classes apart by name, and holds what its members and the roots mention, holds the closure exactly when names tell the closure apart |
| `Dependencies.EqualNamesLoseOne` | easy-services-util/src/main/java/org/zenframework/easyservices/util/cls/ClassInfo.java:129-136 | it happens: of two classes of one simple name among the fields of a class, any such set loses one |
| `Dependencies.CacheIsClosed` | easy-services-util/src/main/java/org/zenframework/easyservices/util/cls/ClassInfo.java:225-277 | what the cache holds when no description is pending is closed under mention, which is what the dependency walks rely on |
| `ClassOrders.EqualIsNotTransitive` | easy-services-core/src/main/java/org/zenframework/easyservices/descriptor/DescriptorUtil.java:13-22 | the comparator is not transitive on types it calls equal, so an ordinary sort could not rely on it |
| `ClassOrders.CompareMeans` | easy-services-core/src/main/java/org/zenframework/easyservices/descriptor/DescriptorUtil.java:13-22 | in a hierarchy it is positive exactly for a supertype, or for an interface against an unrelated class |
| `ClassOrders.SomeIsFree` | easy-services-core/src/main/java/org/zenframework/easyservices/descriptor/DescriptorUtil.java:86-105 | in any non-empty list some type has no incoming edge |
| `ClassOrders.TypeList.TopologicalSort` | easy-services-core/src/main/java/org/zenframework/easyservices/descriptor/DescriptorUtil.java:86-105 | ends, with a permutation of the list in which nothing comes before a type that has to precede it: supertypes before subtypes, interfaces before unrelated classes |
| `ClassOrders.GetAllAssignableFrom` | easy-services-core/src/main/java/org/zenframework/easyservices/descriptor/DescriptorUtil.java:27-35 | lists a class and its supertypes once each, no subtype before a supertype, the class itself last |
| `MethodIdentifiers.ToString` | easy-services-core/src/main/java/org/zenframework/easyservices/descriptor/MethodIdentifier.java:86-95 | the loop that cuts the last comma off again builds the text of the identifier |
| `MethodIdentifiers.TextMeans` | easy-services-core/src/main/java/org/zenframework/easyservices/descriptor/MethodIdentifier.java:86-95 | what the text looks like: name, parameters with commas between them in parentheses, colon, return type |
| `MethodIdentifiers.Parse` | easy-services-core/src/main/java/org/zenframework/easyservices/descriptor/MethodIdentifier.java:62-73 | parses every text to what its first opening and last closing parenthesis make of it, malformed ones and unknown classes to their exceptions |
| `MethodIdentifiers.ParsedByShape` | easy-services-core/src/main/java/org/zenframework/easyservices/descriptor/MethodIdentifier.java:62-73 | which malformed texts fail how: no name, nothing behind the parameters, no colon there or nothing behind it; the others are put together from the parts around the parentheses |
| `MethodIdentifiers.RefusedWithoutParentheses` | easy-services-core/src/main/java/org/zenframework/easyservices/descriptor/MethodIdentifier.java:62-73 | a text that lacks an opening or a closing parenthesis is refused |
| `MethodIdentifiers.ResolveMeans` | easy-services-core/src/main/java/org/zenframework/easyservices/descriptor/MethodIdentifier.java:62-73 | the parameter types are those of the names, in order, or the first unknown name is reported |
| `MethodIdentifiers.ParseInvertsToString` | easy-services-core/src/main/java/org/zenframework/easyservices/descriptor/MethodIdentifier.java:62-95 | `parse` gives back what `toString` printed if and only if the name is not empty and holds no opening parenthesis |
| `MethodIdentifiers.EqualTexts` | easy-services-core/src/main/java/org/zenframework/easyservices/descriptor/MethodIdentifier.java:49-55 | texts are equal exactly when name, parameter types and return type all are |
| `QueueStreams.Reached` | easy-services-util/src/main/java/org/zenframework/easyservices/util/io/QueueInputStream.java:20-75 | every interleaving of producer and reader keeps the invariant of the stream |
| `QueueStreams.DeliversWhatWasAdded` | easy-services-util/src/main/java/org/zenframework/easyservices/util/io/QueueInputStream.java:20-48 | in any interleaving, the bytes delivered, the unread part of the buffer and the queue are the buffers added, in order |
| `QueueStreams.NoWakeUpIsLost` | easy-services-util/src/main/java/org/zenframework/easyservices/util/io/QueueInputStream.java:43-75 | a reader that waits while data is queued or the stream is finished has a notify to come that can be made |
| `QueueStreams.ProducerGoesOn` | easy-services-util/src/main/java/org/zenframework/easyservices/util/io/QueueInputStream.java:43-55 | at any point of any run the producer gets to add, finish and notify, at the latest after one step of the reader |
| `QueueStreams.ReaderGoesOn` | easy-services-util/src/main/java/org/zenframework/easyservices/util/io/QueueInputStream.java:20-36 | a reader in no call gets to begin one, and only a wait keeps it from going on |
| `QueueStreams.ShortReadsEndTheStream` | easy-services-util/src/main/java/org/zenframework/easyservices/util/io/QueueInputStream.java:20-36 | a call gives less than asked for, or the end of the stream, only when the stream is finished and everything added has been delivered |
| `QueueStreams.ReadOnReads` | easy-services-util/src/main/java/org/zenframework/easyservices/util/io/QueueInputStream.java:20-36 | with the producer still, a call gives what it asked for if that is there, all that is there if the stream is finished, and otherwise ends up waiting with all of it in hand |
| `QueueStreams.CallGives` | easy-services-util/src/main/java/org/zenframework/easyservices/util/io/QueueInputStream.java:20-36 | told from the bytes there are: as many as are wanted, or else all of them, the end only when there is no buffer left and the stream is finished |
| `QueueStreams.CallLeaves` | easy-services-util/src/main/java/org/zenframework/easyservices/util/io/QueueInputStream.java:20-36 | and the bytes it does not give are the ones left unread |
| `QueueStreams.QueueInputStream.PrepareBuf` | easy-services-util/src/main/java/org/zenframework/easyservices/util/io/QueueInputStream.java:57-75 | keeps a buffer with something left, else takes the next from the queue, else says whether the stream is over or it has to wait |
| `QueueStreams.QueueInputStream.Read` | easy-services-util/src/main/java/org/zenframework/easyservices/util/io/QueueInputStream.java:20-36 | the copy loop leaves the stream where `ReadOn` says, with exactly the bytes that gives written over the slice and no other element of the array touched: as many of the bytes there as are wanted, or all of them, the others left unread; -1 exactly when there was nothing to take, an exception exactly for a slice that is none of the array's |
| `QueueStreams.QueueInputStream.ReadByte` | easy-services-util/src/main/java/org/zenframework/easyservices/util/io/QueueInputStream.java:15-18 | gives the next of the bytes there, waits, or tells the end; fails exactly when the next buffer is needed and empty; that loses no byte, and the stream can be read on |
| `WriteLocks.OneHolderPerPath` | easy-services-resource/src/main/java/org/zenframework/easyservices/resource/cache/AbstractResourceCache.java:45-102 | in any interleaving of any number of threads a path is locked if and only if a thread holds it, then exactly one does, and no holder is refused to write |
| `WriteLocks.FalseMeansReleased` | easy-services-resource/src/main/java/org/zenframework/easyservices/resource/cache/AbstractResourceCache.java:45-84 | a call that gets `false` tried for the lock at some move, and at a later move a thread released it |
| `WriteLocks.WrittenUnderLock` | easy-services-resource/src/main/java/org/zenframework/easyservices/resource/cache/AbstractResourceCache.java:45-102 | in any interleaving, a thread that says to have written a path did so at a move at which it alone held the lock |
| `WriteLocks.FreeCallsGetThrough` | easy-services-resource/src/main/java/org/zenframework/easyservices/resource/CachingResourceFactory.java:56-78 | a call that finds its path free locks it, writes, and unlocks it, in steps of its own |
| `WriteLocks.CounterKeepsLimitIff` | easy-services-resource/src/main/java/org/zenframework/easyservices/resource/cache/AbstractResourceCache.java:60-76 | the counter keeps a waiter to timeout / 100 + 1 sleeps (none for a negative timeout) if and only if the timeout is at most 2147483599; above that the `int` wraps around first |
| `WriteLocks.LimitHoldsIff` | easy-services-resource/src/main/java/org/zenframework/easyservices/resource/cache/AbstractResourceCache.java:60-76 | in no run at all does a waiter sleep more often, if and only if the timeout is at most that |
| `WriteLocks.SleepsAreBounded` | easy-services-resource/src/main/java/org/zenframework/easyservices/resource/cache/AbstractResourceCache.java:60-76 | over any run with such a timeout, no call sleeps more often, and one that gives up has slept exactly that often |
| `WriteLocks.PollingEnds` | easy-services-resource/src/main/java/org/zenframework/easyservices/resource/cache/AbstractResourceCache.java:60-76 | a waiter leaves with `false` at the first look that finds the path free, gives up at the first turn after the limit has passed, and waits on otherwise |
| `WriteLocks.ResourceCache.GetWriteLock` | easy-services-resource/src/main/java/org/zenframework/easyservices/resource/cache/AbstractResourceCache.java:45-84 | takes the lock exactly when it is free; else the polling loop ends as the waiter of the state machine does, whatever the other threads leave of the locks each time it wakes up |
| `WriteLocks.ResourceCache.GetResource` | easy-services-resource/src/main/java/org/zenframework/easyservices/resource/CachingResourceFactory.java:56-78 | content out of date is written under the lock, which is given back however the writing ends; a thread that waited writes nothing |
| `ObjectModels.CheckDefinition` | easy-services-js/src/main/resources/export/lib/object-model/object-model.js:302-334 | ends on any values and mutually recursive models, cyclic ones included, with no model more than twice on the call stack, and adds exactly the specified errors |
| `ObjectModels.CheckDefinitionPart` | easy-services-js/src/main/resources/export/lib/object-model/object-model.js:336-355 | decides one part of a union, with errors of its own that do not come out |
| `ObjectModels.OneIsOptional` | easy-services-js/src/main/resources/export/lib/object-model/object-model.js:290-300 | an array of one definition is optional: check and rules accept undefined and null for it, whatever the definition |
| `ObjectModels.OneIsItsDefinition` | easy-services-js/src/main/resources/export/lib/object-model/object-model.js:290-355 | on any other value it is its definition, but that it takes besides what passes for undefined or null |
| `ObjectModels.SeveralAreAlternatives` | easy-services-js/src/main/resources/export/lib/object-model/object-model.js:321-355 | any other array accepts undefined and null exactly when they are among its parts, and an object exactly when some part takes it |
| `ObjectModels.BareIsRequired` | easy-services-js/src/main/resources/export/lib/object-model/object-model.js:290-293 | what is no array, model or plain object accepts undefined and null only if it is that |
| `ObjectModels.PropertiesInOrder` | easy-services-js/src/main/resources/export/lib/object-model/object-model.js:315-319 | properties are checked in order, their errors reported under their own dotted paths; what has no properties is as if they were undefined |
| `ObjectModels.ObjectModelMeans` | easy-services-js/src/main/resources/export/lib/object-model/object-model.js:437-448 | a model is its definition; one over objects rejects first what is not `typeof` an object, and null is |
| `ObjectModels.CutOffNeverRejects` | easy-services-js/src/main/resources/export/lib/object-model/object-model.js:302-355 | whatever the rules without cut-off accept, taken as the greatest relation they allow, is accepted |
| `ObjectModels.ExactWithoutCutOff` | easy-services-js/src/main/resources/export/lib/object-model/object-model.js:302-355 | the checker accepts exactly what the rules accept wherever it does not rely on a cut-off at a value and model other than those it is in the middle of checking; recursive models over finite and over cyclic values are among these |
| `ObjectModels.ExactIff` | easy-services-js/src/main/resources/export/lib/object-model/object-model.js:302-355 | for any world, value and definition, checker and rules agree unless the check passes and rests on a cut-off at a value that its model should reject |
| `ObjectModels.ExactWithoutCycles` | easy-services-js/src/main/resources/export/lib/object-model/object-model.js:302-355 | a corollary: they agree on every value when no model leads back to itself |
| `ObjectModels.LoopIsRightlyAccepted` | easy-services-js/src/main/resources/export/lib/object-model/object-model.js:302-306 | a cyclic value that the cut-off is meant for: accepted, and by the rules too |
| `ObjectModels.CutOffAcceptsTooMuch` | easy-services-js/src/main/resources/export/lib/object-model/object-model.js:302-306 | for a model that leads back to itself it can accept what the rules reject: a list of two records that ends in a text |
| `GenericTypes.GetParameterizedType` | easy-services-json/src/main/java/org/zenframework/easyservices/serialize/json/gson/GsonUtil.java:20-31 | reads a type off the shared list as the specification does and leaves the list where it ends, failures included |
| `GenericTypes.ParsedIff` | easy-services-json/src/main/java/org/zenframework/easyservices/serialize/json/gson/GsonUtil.java:20-31 | reading gives a type and a rest if and only if the type is well formed and the list is its prefix form followed by the rest: it inverts printing both ways |
| `GenericTypes.PrefixOrder` | easy-services-json/src/main/java/org/zenframework/easyservices/serialize/json/gson/GsonUtil.java:20-31 | what prefix form is: a class stands before its arguments, and each type with all its arguments before the next |
| `GenericTypes.FailsIff` | easy-services-json/src/main/java/org/zenframework/easyservices/serialize/json/gson/GsonUtil.java:20-31 | it fails if and only if no prefix of the list brings the arity of the class plus the sum of (arity - 1) to zero |
| `GenericTypes.ParsedAsScanned` | easy-services-json/src/main/java/org/zenframework/easyservices/serialize/json/gson/GsonUtil.java:20-31 | the recursion stops where one counting pass over the list does |

## Left out

Weaker than the code or the design promises:

- CacheInput: demands that the live stream has not been opened yet, which is how the invoker calls it; caching what is left of a stream already in use is not modelled.
- TcpxRequestHeader.Write: when a text does not fit, says nothing about the bytes already sent.
- DefaultHeader.Write: says nothing about the bytes already sent when a text does not fit.
- TcpxRequestHeader.Read: on an exception, says nothing about fields already assigned or bytes already consumed; the connection is given up.
- DefaultHeader.Read: says nothing about the partly filled map or the bytes consumed, on an exception.
- Invoke: in `Sessions`, the reply is taken to be written to its end and to reach the client.
- Read: of a queue stream, returns where it would wait, with what it has read by then; the state machine goes on from there.
- GetWriteLock: takes what the other threads leave of the locks at each wake-up as a record, and is still waiting when that ends.
- GetClassRef: takes which classes are described in advance, and under what names, as given (`basic` in the model's world).
- SessionsAreIsolated: covers lookupLink, bind, unbind and destroySubcontext; the other operations of a guarded context are left out.
- NoWakeUpIsLost: takes wake-ups to come from notify alone; spurious ones and interrupts are left out.
- Load: takes modules that do not catch the failure of a `require`, ask for a fixed list of modules and export something truthy.

Assumed:

- Streams are not cut off in the middle of a frame, and transports fail only between messages.
- Service and method names in headers are not null, and a client's serializers do not fail while they write.
- Universally unique ids are distinct and free of slashes; unique names of objects in a shared context are distinct where a statement says so.
- Letter case is that of the English alphabet (`Strings.CaseMeans`).
- Class names are what classes are found by, are not empty and hold no parenthesis or comma; anonymous classes have none.
- Variables shared without a lock (`opened` of the queue stream) are read as last written.
- Tables of a shared context are keyed by the components of names; for names that come from text this is the same as by their text (`Names.ParsePrint`). Objects bound there are neither null nor links.
- In the state machine of the queue stream a read of a single byte is a read of one; the read that fails is no step of it.
- Definitions in object models are finite trees whose cycles go through models.

Not modelled:

- Sockets, channels, servlets, URL handlers and connection pools, beyond a reliable channel with short reads.
- Reflection, proxies, annotations, JSON and Java serialization and script engines, beyond what they answer.
- The details of modified UTF-8; texts are encoded with a length of at most 65535 bytes.
- The map of sessions in the request handler, idle times of sessions, request filters, logging and timing.
- `TreeContext.rename`, `createSubcontext` and listing, references resolved by a naming manager, bound objects that are contexts themselves, and the identity of binding objects.
- `rebind` and `destroySubcontext` of a shared context, nested plain contexts, `rebind`, `rename` and `createSubcontext` of a guarded one.
- The memory cache, which shares one item between threads, and destroying a cache while locks are held.
- Array and function models, proxies, assertions and autocasting.
- The values of enums.
- Configuration, string helpers, statistics, hash codes and the merging of descriptors: they would only add easy members.
