# Verified models of the GCDS tools

GCDS lets one machine run commands on others that are old, small or slow: a daemon (`gcdsd`)
executes commands and moves files over a line-and-frame protocol, a client (`gcds`) talks to
it, and a user-space NFS v2 server (`gnfsd`) shares a source tree with the same machines.
This project models the parts of that code in which most can go wrong and proves what they
are for. `dafny verify dfyconfig.toml` checks all of it.

| file | models |
|---|---|
| `Bytes.dfy`, `Decimal.dfy`, `Util.dfy` | octets and options; decimal numbers printed and read; bounded C strings |
| `TextCv.dfy` | Hangul composition over a chunked UTF-8 stream (macOS branch of `common/textcv.c`) |
| `Xdr.dfy` | the XDR cursor |
| `Drc.dfy`, `Rpc.dfy` | the duplicate request cache; RPC dispatch and whole runs of the server |
| `Paths.dfy`, `Handles.dfy` | path joining inside the export; file handles across restarts |
| `Nfs.dfy`, `Calls.dfy`, `Handlers.dfy` | the route table and the procedures: as functions, what calls to them mean, and in place on cursors |
| `Readdir.dfy` | READDIR paging |
| `Gnfsd.dfy` | the whole NFS server: cursors, cache ring, handle table and procedures over a list of datagrams |
| `Lineio.dfy` | the channel, protocol lines and frames |
| `Output.dfy`, `Transfer.dfy` | captured output under the cap; PUT and GET |
| `Async.dfy`, `Session.dfy` | asynchronous jobs and their clients; the daemon's session |
| `Live.dfy` | the loop that supervises a running job |
| `Shell.dfy` | shell quoting and the job script |
| `Pathmap.dfy`, `Mapback.dfy` | the client's path maps, forward and back |

Code that works in place is modelled in place: classes with the source's fields, arrays for
its buffers, loops for its loops. Each such method is proved against a function of the old
state, and the lemmas about that function are the results. Operating-system calls, the clock
and the two hash functions are parameters, and every result holds for all of them; where a
result needs something of them (an opened export, no hash collision, a clock that does not
go back) it says so in its `requires`.

The main results:

- **Text stream.** For every byte stream, malformed and overlong sequences included, and
  every way of cutting it into chunks, what the stream converter writes is the one-shot
  composition of the whole stream (`TextCv.ConvertStream`); composition keeps the meaning,
  is a normal form, and decides canonical equivalence (`TextCv.ComposeBytesIsCanonical`);
  well-formed UTF-8 stays well-formed, and the bytes are those of the standard
  (`TextCv.Utf8Composes`, `TextCv.Utf8Kept`, `TextCv.SyllableBytes`).
- **At most once.** Over every run of the NFS server, a call is answered from the cache
  exactly when it repeats, by sender, port and transaction number, one whose reply was
  stored at most 30 s and 255 further stores ago; any other runs its procedure and gets its
  own reply (`Rpc.NewCallRuns`, `Rpc.RepliesAnswer`); and leaving such repeats out changes neither the final state nor any other reply
  (`Rpc.ReplayedIffRepeat`, `Rpc.RetransmissionsInvisible`, `Nfs.NfsAtMostOnce`). The whole
  server, with its cursors, cache ring, handle table and procedures all in place, gives
  exactly the replies of that run (`Gnfsd.Serve`). What a datagram does is told from its
  bytes: the number of its procedure, its arguments and the layout of the reply
  (`Calls.CallServed`, `Calls.NumbersServe` and the `Means` lemmas).
- **Confinement.** Over every run, replacing everything outside the export changes no reply
  and no state, the names examined for READDIR included (`Nfs.RunStaysInside`).
- **Handles.** A handle of an earlier run resolves to the same file below the new root
  exactly when that file is interned or within reach of the one walk
  (`Handles.HandleSurvivesRestart`), with one exception, which for a handle a server has
  really issued needs its old path to lie strictly below the new root
  (`Handles.ExceptionIsBelow`, `Nfs.RunSlots`).
- **Directories.** With any counts, and read errors in between, a client gets every entry
  once and in order, read from the bytes of the replies (`Readdir.EveryEntryOnce`,
  `Readdir.NamesInOrder`).
- **Sessions.** What each line of a session does to files, directory, variables and jobs,
  and what its client gets, is stated line by line (`Session.PutThenGet`,
  `Session.RunReports`, `Session.JobThenResult` and their kin).
  Both ends of a pipelined conversation stay in step (`Session.EndsInStep`);
  frames and files arrive unchanged (`Output.StreamRoundTrip`, `Transfer.UploadStoresFile`).
- **Jobs.** Every lifetime of the daemon, wherever its sessions are cut short, is the run of
  the job protocol on the events its lines and its jobs' ends spell, and its history is the
  list of the RUNA lines obeyed with those ends; so a result held has the number, code and
  capture files of the last job accepted (`Session.LifetimeIsRun`). The serving loop goes
  through such a lifetime on what its channels bring (`Session.Daemon.ServeAll`). A polling
  client that is answered gets the code of its own job if and only if no job was accepted
  since (`Async.FetchExact`).
- **Supervision.** For every schedule of a job, whatever its end, the session holds exactly
  the bytes of each pipe and at most one notice, and exactly the frames heard have been
  taken from the client (`Live.LiveExec`); the child has a prefix of what the client sent
  before its K or end of input, all of it while its input is open, and nothing after it was
  signalled (`Live.ChildTakesPrefix`, `Live.NothingAfterKill`); the code reported is the
  child's own (`Live.CodeTells`).
- **Quoting and maps.** The shell reads back exactly the variables of a job
  (`Shell.ScriptReads`); a mapped directory named anywhere in the output comes back as the
  local one under an exact condition (`Pathmap.MappedReadsBack`); the output filter does
  what its documentation promises exactly on lines where every replacement stands at the
  start of a token (`Pathmap.AsDocumented`).

Where the code and its documentation part, the model follows the code:

- `client/asyncjob.c:60-61` retries after a broken fetch because RESULT can be repeated, but
  line 53 has overwritten the status line it compares with, so no retry ever ends in a code
  (`Async.BrokenFetchHappens`, `Async.BrokenFetchIsFinal`).
- `nfsd/handle.c:38-39` says a handle stays valid when the export moves. When it moves to one
  of its own subdirectories the index can win and give a different file
  (`Handles.NestedRootMisresolves`, reached by calls in `Calls.NestedRootHappens`);
  `Handles.HandleSurvivesMove` and `Handles.ExceptionIsBelow` have the condition.
- A refused upload (`daemon/session.c:261-271`) goes on with the session although frames of
  the upload are unread; `Transfer.UploadStoresFile` says exactly when.
- Section 2 of `PLAN_05_PATHS.md` matches local prefixes on component boundaries. A local
  prefix `/` then matches only the root itself (`Pathmap.RootPrefix`).
- Section 4 promises for the way back that tokens which begin with the remote prefix are
  replaced. The code also replaces in the middle of a token (`Pathmap.InsideTokenExample`:
  `aZ:\x` becomes `a/u/x`); `Pathmap.AsDocumented` has the exact condition. It promises
  nothing about component boundaries there, and the code looks at none:
  `Pathmap.RewrittenUnder` says when what it writes is a path the map covers.

## Model

| member | source | states |
|---|---|---|
| `TextCv.U8Dec` | common/textcv.c:198-221 | a decoded character takes one to four bytes, all inside the buffer, and never fewer than its encoding has; "incomplete" is only said near the end |
| `TextCv.EncDec` | common/textcv.c:198-242 | for every 21-bit code point and whatever follows, decoding its encoding gives it back and takes exactly the encoding |
| `TextCv.ComposeIsCanonical` | common/textcv.c:279-327 | composition keeps the full Hangul decomposition, leaves no pair that composes, and two texts compose alike exactly when they decompose alike |
| `TextCv.ComposeBytesReads` | common/textcv.c:279-327 | the composed bytes read back as the composed text and are never longer than the input, on every byte string |
| `TextCv.ComposeBytesIsCanonical` | common/textcv.c:279-327 | on every byte string: idempotent, meaning kept, no pair left to compose, and equal outputs exactly for canonically equivalent inputs |
| `TextCv.EncIsUtf8` | common/textcv.c:223-242 | the bytes written for a code point are its UTF-8 form by byte ranges and values, continuation bytes 80 to BF and the shortest form, and no other bytes are |
| `TextCv.Utf8Composes` | common/textcv.c:279-327 | the composed bytes of a well-formed UTF-8 text are the well-formed UTF-8 text of its composed code points, with nothing but scalar values if the input has no others |
| `TextCv.Utf8Kept` | common/textcv.c:279-327 | a well-formed text comes out byte for byte as it was exactly when no two neighbours are a consonant and a vowel, or an open syllable and a final |
| `TextCv.SyllableBytes` | common/textcv.c:294-321 | byte for byte, for every consonant, vowel and final: what they, and the open syllable with the final, compose to |
| `TextCv.TailBitsIgnored` | common/textcv.c:198-221 | of the second and later bytes of a character only the low six bits count |
| `TextCv.SafeEnd` | common/textcv.c:244-277 | the cut leaves at most 11 bytes and, whatever bytes come next, composing the two sides apart equals composing the whole |
| `TextCv.ClusterThrough` | common/textcv.c:294-324 | taking a character with what joins it continues the fold over the units of the whole buffer, and leaves nothing that would still join |
| `TextCv.TakeSyllable` | common/textcv.c:294-311 | an L and the V after it, with the T after them if there is one, become the unit that joining them pairwise gives, and exactly their bytes are taken |
| `TextCv.TakeCluster` | common/textcv.c:294-324 | the unit taken at a character needs no more room than is asked for and continues the fold over the units of the whole buffer |
| `TextCv.ComposeBuffer` | common/textcv.c:279-327 | the look-ahead loop writes exactly the reference composition, and refuses only when the room is less than the input |
| `TextCv.TxtStream.constructor` | common/textcv.c:24-27 | a new stream is exact: nothing fed, nothing written, nothing held |
| `TextCv.TxtStream.Splice` | common/textcv.c:29-45 | the held bytes come in front of the chunk, and the clamp cannot fire when both fit the joining buffer |
| `TextCv.TxtStream.Hold` | common/textcv.c:47-55 | the tail is kept whole whenever it fits the hold, which the stream invariant ensures |
| `TextCv.TxtStream.TxtOut` | common/textcv.c:329-339 | a chunk that fits is accepted, at most 11 bytes are held, and output so far plus what is held still stands for everything fed; failure means too little room |
| `TextCv.TxtStream.TxtFlush` | common/textcv.c:341-350 | at the end everything written is the one-shot composition of everything fed |
| `TextCv.ConvertStream` | common/textcv.c:329-350 | for any chunks of at most 8181 bytes the concatenated outputs are the composition of the concatenated input, and no longer than it |
| `Xdr.WordReadsBack` | nfsd/xdr.c:32-113 | a big-endian word written anywhere in a buffer is read back from there |
| `Xdr.FixedReadsBack` | nfsd/xdr.c:72-132 | padded fixed data written anywhere is read back, with the padding skipped |
| `Xdr.OpaqueReadsBack` | nfsd/xdr.c:54-139 | counted data written anywhere is read back with its length |
| `Xdr.NthReadsBack` | nfsd/xdr.c:32-139 | in any list of items, the i-th is read back where the ones before it end, which is on a word boundary |
| `Xdr.WordsAreBigEndian` | nfsd/xdr.c:32-113 | a word read or written is the number its four bytes write in base 256, the first the highest |
| `Xdr.PaddedWithZeros` | nfsd/xdr.c:54-139 | data is followed by the fewest zeros that bring it to a word boundary |
| `Xdr.CStringCuts` | nfsd/xdr.c:84-98 | a counted string becomes what stands before its first NUL |
| `Xdr.Cursor.Need` | nfsd/xdr.c:23-30 | the error flag is sticky and is set exactly when the bytes are not there |
| `Xdr.Cursor.ReadU32` | nfsd/xdr.c:32-43 | gives the word at the cursor and moves past it, or sets the flag and moves nothing |
| `Xdr.Cursor.ReadFixed` | nfsd/xdr.c:72-82 | gives fixed data and moves past its padding, or sets the flag and moves nothing |
| `Xdr.Cursor.ReadBytes` | nfsd/xdr.c:54-70 | gives counted data and moves past its padding, or sets the flag |
| `Xdr.Cursor.ReadString` | nfsd/xdr.c:84-98 | gives counted data as a C string, or sets the flag when it is missing or too long |
| `Xdr.Cursor.WriteU32` | nfsd/xdr.c:100-113 | appends exactly the word's encoding or sets the flag and writes nothing |
| `Xdr.Cursor.WriteFixed` | nfsd/xdr.c:120-132 | appends the data and its zero padding or sets the flag and writes nothing |
| `Xdr.Cursor.WriteBytes` | nfsd/xdr.c:134-139 | succeeds exactly when length, data and padding fit, and then appends them; a failure never disturbs what was written |
| `Xdr.Echo` | nfsd/xdr.c:4-139 | every list of items put through one cursor and read through another comes back unchanged, exactly when its encoding fits the buffer |
| `Drc.Lookup` | nfsd/rpc.c:39-53 | finds a store among the last 256 with this key and at most 30 s old whenever there is one |
| `Drc.StoreKeepsOneLive` | nfsd/rpc.c:210-248 | a store made only after a failed lookup keeps replies unambiguous at every later time |
| `Drc.LookupUnique` | nfsd/rpc.c:39-53 | when replies are unambiguous, any live match in the ring is the one that is found |
| `Drc.Cache.constructor` | nfsd/rpc.c:36-37 | an empty ring stands for the empty history |
| `Drc.Cache.Find` | nfsd/rpc.c:39-53 | the scan of the ring hits exactly when one of the last 256 stores is live, and then gives what the history lookup gives |
| `Drc.Cache.Put` | nfsd/rpc.c:55-72 | a reply of at most 512 bytes becomes the newest of the history, replacing only the oldest slot; a longer one is not stored |
| `Rpc.FindRoute` | nfsd/rpc.c:193-208 | the route found matches program, version and procedure, and none is missed |
| `Rpc.RunOneLive` | nfsd/rpc.c:210-251 | in every run from an empty cache, at every later time, no key has two live replies within reach |
| `Rpc.StoreOrigin` | nfsd/rpc.c:245-248 | every reply in the cache came from exactly one datagram of the run and is the reply it was sent |
| `Rpc.RepeatIsReplayed` | nfsd/rpc.c:210-222 | a copy of a stored call within 30 s and 255 further stores gets the byte-identical reply and changes nothing |
| `Rpc.CopyRepeats` | nfsd/rpc.c:210-222 | on a fresh server, a copy of the first call, if its reply fits the cache, gets that reply up to 30 s later and changes nothing |
| `Rpc.KeysTell` | nfsd/rpc.c:39-53 | the cache tells two calls apart exactly by sender address, port and the transaction number, the first word of the datagram |
| `Rpc.NewCallRuns` | nfsd/rpc.c:210-251 | a cached call of a transaction no earlier stored call has runs its procedure on the state as it is, and the reply is its own |
| `Rpc.ReplayedIffRepeat` | nfsd/rpc.c:210-251 | a cached call is answered from the cache if and only if sender, port and first word are those of a stored call at most 30 s and 255 further stores before, and that call is unique |
| `Rpc.AtMostOnce` | nfsd/rpc.c:14-21 | two executions for one sender, port and transaction number are more than 30 s or more than 255 further stores apart, if the first reply was stored |
| `Rpc.RetransmissionsInvisible` | nfsd/rpc.c:14-21 | deleting the replayed datagrams changes neither the final state nor any other reply |
| `Rpc.CallReads` | nfsd/rpc.c:74-124 | a call laid out as section 8 of RFC 1057 has it is read as its transaction, program, version and procedure, with the arguments after the verifier; another message type or RPC version is dropped without a trace |
| `Rpc.ShortIsDropped` | nfsd/rpc.c:74-124 | a datagram shorter than the fixed part of a call is dropped without a trace |
| `Rpc.RepliesAnswer` | nfsd/rpc.c:127-144 | in every run each reply, fresh, from the cache or an error, begins with the first word of the datagram it answers and is marked a reply |
| `Rpc.SuccessIs` | nfsd/rpc.c:127-149 | a procedure that answers is replied to with transaction, reply, accepted, no verifier, success, and then its body; there is no reply exactly when it drops the call or its body does not fit |
| `Rpc.UnservedIs` | nfsd/rpc.c:193-241 | a call no route serves changes nothing and gets program unavailable, version mismatch with the least and the greatest version served, or procedure unavailable, as the routes have it |
| `Rpc.Scan` | nfsd/rpc.c:193-208 | one pass over the routes gives the matching route, whether the program is served, and the lowest and highest version |
| `Paths.JoinRefines` | nfsd/nfs.c:75-106 | joining refines push and pop on component lists, clamped at the root, refusing exactly bad names and overlong results |
| `Paths.JoinMeans` | nfsd/nfs.c:75-106 | "." leads to the directory, ".." to its parent though not above the root, any other name to its entry |
| `Paths.JoinInside` | nfsd/nfs.c:75-106 | from a path inside the export joining never leads out of it |
| `Paths.RelPathIs` | nfsd/handle.c:38-49 | what is left of a path below any root is its components joined by slashes |
| `Paths.InsideByRel` | nfsd/handle.c:38-49 | a path inside the export is determined by its relative part |
| `Paths.RenderInjective` | nfsd/nfs.c:104 | two component lists with the same path are the same |
| `Handles.HandleWords` | nfsd/handle.c:128-141 | the five words of a handle read back as index, magic number, verifier and the two hash words |
| `Handles.HandleRest` | nfsd/handle.c:128-141 | after its five words a handle is zero |
| `Handles.WalkExact` | nfsd/handle.c:143-173 | the walk interns exactly the entries within 33 levels and 1023 bytes |
| `Handles.RebuildConfined` | nfsd/handle.c:175-182 | a rebuild adds only paths inside the export |
| `Handles.ResolveExact` | nfsd/handle.c:184-214 | how a handle resolves, in both directions: by index, by hash, or after the one walk |
| `Handles.HandleSurvivesRestart` | nfsd/handle.c:184-214 | a handle issued under any earlier root resolves to the same relative path below the new root exactly when it is interned or within reach of the walk, else to nothing, unless its slot holds the old absolute path; for a findable path that exception gives the same file if and only if the roots are equal; at most one walk |
| `Handles.HandleSurvivesMove` | nfsd/handle.c:38-49 | when the root is unchanged, or the old path does not lie below the new root, the exception cannot occur |
| `Handles.ExceptionIsBelow` | nfsd/handle.c:192-196 | for a handle issued for a path other than the root, the index can only win over a moved root when the old path lies strictly below the new root |
| `Handles.IssuedIndex` | nfsd/handle.c:88-141 | a table that begins with its root issues no other path index 0 |
| `Handles.NestedRootMisresolves` | nfsd/handle.c:192-196 | for every root a and entries m, c and x: the handle a server for a issues for a/m/c, its third path, is resolved by a server for a/m that holds its root, a/m/x and a/m/c to a/m/c, a different file |
| `Handles.FreshHandleResolves` | nfsd/handle.c:128-141 | a handle just issued resolves at once to its path, without a walk and without assumptions on the hashes |
| `Handles.ForeignHandle` | nfsd/handle.c:175-214 | a handle without the mark 47465348 resolves to nothing, and so does one with a zero path hash unless its index finds the path; no walk is made for either |
| `Handles.FhTable.InternPath` | nfsd/handle.c:88-126 | the path is in the table once, at its first position, and the hash columns stay those of the relative paths |
| `Handles.FhTable.FhFromPath` | nfsd/handle.c:128-141 | interns the path and gives its handle |
| `Handles.FhTable.RebuildDir` | nfsd/handle.c:143-173 | the recursive walk interns exactly the walked paths in order, within the depth and length guards |
| `Handles.FhTable.RebuildAll` | nfsd/handle.c:175-182 | the export is walked once per server lifetime |
| `Handles.FhTable.FhToPath` | nfsd/handle.c:184-214 | the lookup loop ends after at most one rebuild and resolves as specified |
| `Nfs.CachedRepliesAreSmall` | nfsd/nfs.c:711-739 | every procedure of the cache drops the call with the file system untouched, or has a body of at most 104 bytes |
| `Nfs.CachedCallIsStored` | nfsd/rpc.c:243-250 | a cached call that runs has a reply of at most 128 bytes, which is stored, or leaves the file system as it was |
| `Nfs.NfsAtMostOnce` | nfsd/nfs.c:711-739 | a second datagram of the same transaction in the window gets the first reply and changes nothing, or the first was dropped without effect |
| `Nfs.RunStaysInside` | nfsd/nfs.c:75-106 | over every run, two systems that agree inside the export give the same replies and final state, and every interned path is the root or below it |
| `Nfs.RunSlots` | nfsd/handle.c:88-126 | over every run the table holds no path twice and the export root first |
| `Nfs.EntSame` | nfsd/nfs.c:671-673 | every name READDIR examines, "." and ".." included, is joined and examined inside the export |
| `Nfs.EveryReplyFits` | nfsd/nfs.c:178-709 | no procedure of an export with a path below 1024 bytes has a reply body of more than 8268 bytes, so every reply fits its buffer |
| `Nfs.FindRoute` | nfsd/nfs.c:713-740 | dispatch over the 22 routes finds the procedure with that program, version and number |
| `Calls.EncodedReads` | nfsd/xdr.c:32-139 | wherever a datagram holds the encoding of a list of arguments, each is read after the ones before it |
| `Calls.HandleArg` | nfsd/nfs.c:144-162 | a handle the server has issued stands for its path |
| `Calls.SattrReads` | nfsd/nfs.c:275-279 | of eight encoded attribute words the first is the mode and the fourth the size |
| `Calls.AnswerSays` | nfsd/nfs.c:118-176 | the bodies of the replies: a status; success and seventeen attribute words; success and a handle; or both |
| `Calls.AttributesSay` | nfsd/nfs.c:164-176 | the reply to an examined path: its attributes, or the status of the failure |
| `Calls.OutcomeSays` | nfsd/nfs.c:447-475 | the reply to a change: 0 when the operation succeeded, the status of its failure otherwise, and the file system is as it left it |
| `Calls.StatusTells` | nfsd/nfs.c:58-73 | each error has its status of section 2.3.1 of RFC 1094: none is 0, and no two are the same |
| `Calls.GetattrMeans` | nfsd/nfs.c:258-265 | GETATTR reports the attributes of the path its handle stands for, or the error |
| `Calls.ReadlinkMeans` | nfsd/nfs.c:556-574 | READLINK reports the target of the link its handle stands for, up to 1023 bytes, or the error |
| `Calls.StatfsMeans` | nfsd/nfs.c:691-709 | STATFS reports 8192 and the four figures of the file system that holds the path, or the error |
| `Calls.MountMeans` | nfsd/nfs.c:205-230 | MNT of the export root gives a handle that resolves to it at once; of any other directory it is refused |
| `Calls.PortMeans` | nfsd/nfs.c:183-196 | GETPORT tells the port for MOUNT and NFS and 0 for any other program |
| `Calls.ExportMeans` | nfsd/nfs.c:240-249 | the export list is the root, with no groups |
| `Calls.RemoveMeans` | nfsd/nfs.c:447-475 | REMOVE unlinks, and RMDIR removes, exactly the named entry of the directory the handle stands for |
| `Calls.RenameMeans` | nfsd/nfs.c:477-511 | RENAME moves exactly the first named entry to the place of the second |
| `Calls.LinkMeans` | nfsd/nfs.c:513-549 | LINK gives exactly the first handle's file the new name |
| `Calls.SymlinkMeans` | nfsd/nfs.c:576-609 | SYMLINK makes the named entry with exactly the target sent |
| `Calls.MakeMeans` | nfsd/nfs.c:390-445 | CREATE and MKDIR make exactly the named entry, with the mode sent |
| `Calls.MakeChildMeans` | nfsd/nfs.c:414-435 | the mode used, its default, the status of a failure, and a handle in the reply that resolves to the new entry at once |
| `Calls.LookupMeans` | nfsd/nfs.c:292-319 | LOOKUP reports the named entry's attributes with a handle that resolves to it at once, or the error, and changes no file |
| `Calls.SetattrMeans` | nfsd/nfs.c:267-290 | mode bits and size are set exactly when asked for, in that order, and the attributes afterwards are reported |
| `Calls.WriteMeans` | nfsd/nfs.c:356-388 | WRITE writes exactly the data sent at the second word's offset of the handle's file |
| `Calls.ReadMeans` | nfsd/nfs.c:321-354 | READ reports what the file holds at the first word's offset, at most the bytes asked for in the second and at most 8192, with the attributes, or the error |
| `Calls.ReaddirMeans` | nfsd/nfs.c:618-689 | READDIR reports the error, or its reply decodes to the entries of the handle's directory that cookie and count select, and the right end mark |
| `Calls.EntryMeans` | nfsd/nfs.c:663-673 | a name READDIR lists has the file number of what it names, "." and ".." included, and none when that cannot be named or examined |
| `Calls.NameRefused` | nfsd/nfs.c:75-106 | an empty name, one with a slash or one that leads too far is not found by LOOKUP and refused by REMOVE, RMDIR, CREATE, MKDIR and SYMLINK; nothing is touched |
| `Calls.RenameRefused` | nfsd/nfs.c:477-511 | RENAME is refused when either name is of that kind, and nothing is touched |
| `Calls.StaleMeans` | nfsd/nfs.c:144-162 | a handle that stands for nothing is answered with status 70 in every NFS procedure that takes one |
| `Calls.NullMeans` | nfsd/nfs.c:178-256 | the null procedures and UMNT answer with an empty body and change nothing |
| `Calls.NumbersServe` | nfsd/nfs.c:711-739 | under each program, version and procedure number of the standards the procedure named for it runs, its reply remembered or not as the route table has it, and under no other number any |
| `Calls.CallServed` | nfsd/rpc.c:170-251 | a call laid out as RFC 1057 has it, of a transaction not in the cache, runs the procedure of its number on its arguments, and the reply says what the procedure says after the head of a success |
| `Calls.NestedRootHappens` | nfsd/handle.c:192-196 | two runs of MNT and LOOKUP calls, before and after the export moves to its entry m: the handle issued for m/c stands for c |
| `Calls.SetattrTouches` | nfsd/nfs.c:267-290 | SETATTR looks at and changes only the path its handle stands for: two systems that agree there give the same reply and state |
| `Calls.MakeTouches` | nfsd/nfs.c:390-436 | CREATE and MKDIR look at and make only the path they name |
| `Handlers.Procedures.ArgFh` | nfsd/nfs.c:144-162 | reads and resolves the handle argument through the table in place, as specified |
| `Handlers.Procedures.Mount` | nfsd/nfs.c:205-230 | only the exact export root is served, and it gets its handle |
| `Handlers.Procedures.Getattr` | nfsd/nfs.c:258-265 | status and attributes of the path the handle stands for |
| `Handlers.Procedures.Lookup` | nfsd/nfs.c:292-319 | joins, examines, interns and replies as specified, in every error case too |
| `Handlers.Procedures.Setattr` | nfsd/nfs.c:267-290 | mode and size are set when asked for, after the whole argument has been read |
| `Handlers.Procedures.Write` | nfsd/nfs.c:356-388 | the data is written at the offset after the whole argument has been read |
| `Handlers.Procedures.Make` | nfsd/nfs.c:390-436 | CREATE and MKDIR: nothing is made unless handle, name and attributes are in order; the child gets a handle |
| `Handlers.Procedures.Remove` | nfsd/nfs.c:447-466 | REMOVE and RMDIR act on the joined path and report the outcome |
| `Handlers.Procedures.Rename` | nfsd/nfs.c:477-511 | both names are joined inside their directories before anything is renamed |
| `Handlers.Procedures.Link` | nfsd/nfs.c:513-549 | the new name is joined inside its directory before anything is linked |
| `Handlers.Procedures.Symlink` | nfsd/nfs.c:576-609 | the link is made inside the directory after the whole argument has been read |
| `Handlers.Procedures.Read` | nfsd/nfs.c:321-354 | the three words are read before the file; the reply is the status or the attributes with the data |
| `Handlers.Procedures.Readlink` | nfsd/nfs.c:556-575 | the target, cut at 1023 bytes, or the error |
| `Handlers.Procedures.List` | nfsd/nfs.c:618-689 | READDIR in place: the directory is opened, every name joined and examined, and the page written |
| `Handlers.Procedures.Statfs` | nfsd/nfs.c:691-709 | the five words of the file system, or the error |
| `Handlers.Procedures.GetPort` | nfsd/nfs.c:183-196 | the port of MOUNT and NFS, 0 for any other program; the call is dropped when its four words are not there |
| `Handlers.Procedures.Exports` | nfsd/nfs.c:240-249 | the one export with no groups |
| `Handlers.Procedures.Perform` | nfsd/nfs.c:144-740 | each of the 22 procedures, run in place on cursors and table, makes the change and writes the bytes that its function says, and its reply always fits |
| `Gnfsd.ParseCall` | nfsd/rpc.c:74-121 | the call header is read through the cursor as specified, which then stands at the arguments |
| `Gnfsd.PutError` | nfsd/rpc.c:123-164 | the answer to a call no route serves: unknown program, version range or unknown procedure |
| `Gnfsd.Server.HandleOne` | nfsd/rpc.c:170-251 | one datagram, all in place: parsed, looked up, answered from the ring or run and remembered; state and reply are those of `Rpc.Handle` on the NFS routes |
| `Gnfsd.Serve` | nfsd/rpc.c:253-290 | over every list of datagrams the whole server gives the replies, and ends in the file system, of `Rpc.Run` on the NFS routes |
| `Readdir.EveryEntryOnce` | nfsd/nfs.c:618-689 | for every sequence of calls with any counts and read errors: what was received, then what can still be asked for, is the listing in order; end-of-directory means all of it |
| `Readdir.EndIsReached` | nfsd/nfs.c:640-647 | without read errors every reply but the last advances the cookie, so the end comes within one call more than there are entries |
| `Readdir.EntrySize` | nfsd/nfs.c:666-668 | the size reckoned for an entry is the size written, at most 272 bytes for names up to 255 |
| `Readdir.PickPartitions` | nfsd/nfs.c:654-680 | a page and what is left after its stop are the listable entries in order, and a page that stops early is not empty |
| `Readdir.ScanEntries` | nfsd/nfs.c:652-680 | the scan writes exactly the chosen entries, its byte count equals the bytes written and stays within the limit |
| `Readdir.ReadDirectory` | nfsd/nfs.c:638-688 | the reply is status, the chosen entries, terminator and the right end mark, in at most 4108 bytes |
| `Readdir.ReplyLies` | nfsd/nfs.c:638-688 | in such a reply the entries lie after the status, and the end of the list after the entries |
| `Readdir.ReplyDecodes` | nfsd/nfs.c:652-688 | reading a reply item by item as XDR says gives exactly the chosen entries, their file numbers, names and cookies in order, and the end mark |
| `Readdir.BodyDecodes` | nfsd/nfs.c:638-688 | the whole reply to a call decodes to the entries chosen for it and the end mark |
| `Readdir.NamesInOrder` | nfsd/nfs.c:618-689 | for every sequence of calls with any counts and read errors: what a client reads from the bytes of the replies, then what it can still ask for, is the directory's listing in order with names, file numbers and cookies |
| `Readdir.PickFits` | nfsd/nfs.c:611-616 | the entries of a reply never take more than 4096 bytes |
| `Readdir.PageFills` | nfsd/nfs.c:652-680 | a page keeps to the count asked for and to 4096 bytes unless it is a single entry, and stops before the end of the directory only at an entry with which it would be over |
| `Readdir.EntryFields` | nfsd/nfs.c:674-679 | an entry is a word 1, the file number, the counted name and the position after it, in this order |
| `Decimal.AtolPrint` | common/lineio.c:49 | a printed number reads back, whatever follows but a digit |
| `Decimal.PrintedAsUsual` | common/lineio.c:43-55 | numbers are written in the ten digits, highest first, with a sign when negative |
| `Decimal.AtolSkips` | common/lineio.c:49 | leading white space and a plus sign make no difference; what begins with no digit is 0 |
| `Lineio.HeaderReads` | common/lineio.c:43-55 | a frame header is read back as its tag and length, and reading stops at its line end |
| `Lineio.LineIs` | common/lineio.c:12-32 | for every byte stream: a line is what precedes the first line feed without carriage returns, up to a NUL; when that would fill the buffer it is too long, and the stream is left after the character too many |
| `Lineio.Chan.ReadN` | common/chan.c:18-34 | exactly n bytes under any fragmentation, or failure exactly when the stream is shorter |
| `Lineio.Chan.WriteAll` | common/chan.c:36-52 | all bytes in order under any fragmentation, or failure exactly when the peer stops, with a prefix sent |
| `Lineio.Chan.GetLine` | common/lineio.c:12-32 | byte-at-a-time reading gives the line as a function of the stream, never takes a byte past its end, under any fragmentation |
| `Lineio.Chan.PutLine` | common/lineio.c:34-41 | the line and its end are sent whole or the peer has stopped |
| `Lineio.Chan.PutFrame` | common/lineio.c:43-55 | a frame goes out whole exactly when its payload is 1 to 4096 bytes and the peer takes it |
| `Output.RcOutFrame` | client/remote.c:317-354 | one server line takes exactly its payload, for every line |
| `Output.RcStream` | client/remote.c:356-370 | what reaches each stream, the code and what stays unread are a function of the byte stream, whatever its fragmentation |
| `Output.StreamRoundTrip` | client/remote.c:317-370 | for every sequence of frames and exit code the client delivers exactly each stream's text, the code, and reads no byte further |
| `Output.LinesAre` | daemon/session.c:316-322 | the frame headers are "O n" and "E n", the notice going out under E, and the exit line is "X code" |
| `Output.StreamBreaks` | client/remote.c:320-370 | any other line, a length outside 1 to 4096 or a frame cut short ends the stream with -1 |
| `Output.SendFile` | daemon/session.c:143-210 | unless the peer stops, exactly the frames of the file under the cap go out, and the running total never passes the cap |
| `Output.CapIsPrefix` | daemon/session.c:143-210 | notices aside, both files together yield the prefix of length min(cap, total) of stdout then stderr, each under its tag |
| `Output.CutIsTold` | daemon/session.c:145-210 | the notice goes out once for each of the two files the cap left something out of, and never otherwise |
| `Output.SendResult` | daemon/session.c:623-632 | the answer is the frames of both files under one cap, then the exit line |
| `Output.ResultArrives` | client/remote.c:356-370 | from capture files to the client's streams: the code arrives, both files whole when the cap allows, nothing more is read |
| `Transfer.SendData` | client/xfer.c:48-61 | the sending loop writes exactly the file's frames and terminator |
| `Transfer.FramesAre` | daemon/session.c:302-313 | a file goes out as "D n" frames of the block size, the last with what is left, and "D 0" |
| `Transfer.BadHeader` | daemon/session.c:236-260 | what each header line of a transfer leads to: a block, the end, or the violation with its own answer |
| `Transfer.TransferIsIdentity` | daemon/session.c:235-272 | the receiver has the file byte for byte and stands at the byte after the terminator exactly when cap and space allow it; otherwise it is refused for the one that does not |
| `Transfer.GetBlocks` | daemon/session.c:235-272 | the receiving loop gives what the byte stream says and leaves exactly the rest |
| `Transfer.DoPut` | daemon/session.c:212-282 | a complete upload leaves exactly its bytes and reports their number; anything else leaves no file; every error line and end of session; when a line does not get through the file is empty or the one stored |
| `Transfer.DoGet` | daemon/session.c:284-314 | the file as frames, or the error line |
| `Transfer.XferGet` | client/xfer.c:73-145 | success with the file exactly as sent; on failure what had been stored by then stays at the local path; when the local file cannot be created the transfer is still taken off the session |
| `Transfer.StoredIsHead` | client/xfer.c:112-144 | wherever the bytes of a download stop, and whatever ends it, what is stored by then is the head of the file |
| `Transfer.XferPut` | client/xfer.c:16-71 | success exactly when the daemon says OK to the request and to the data |
| `Transfer.Drain` | client/xfer.c:94-108 | a file nobody keeps is read to the end of its transfer |
| `Transfer.UploadStoresFile` | daemon/session.c:212-282 | a whole upload, for every file, block size, cap and space: stored byte for byte with its exact length reported exactly when cap and space allow it; refused otherwise, with no file, and a session that goes on with frames still to read |
| `Transfer.ClientSeesVerdict` | client/xfer.c:63-70 | the client reports success for exactly the uploads the daemon keeps |
| `Transfer.DownloadIsFile` | client/xfer.c:112-144 | a download gives the daemon's file and stops where the transfer does |
| `Async.RunInv` | daemon/main.c:37-65 | in every run, while a result is held it and the capture files are those of the last job accepted |
| `Async.IdsClash` | daemon/session.c:133-141 | two jobs share an id exactly when their numbers differ by a multiple of 32767 |
| `Async.ResultIsLastJob` | daemon/session.c:613-632 | RESULT for the k-th job is answered exactly when a result is held and the id is that of the last job; it is then the last job's code and output |
| `Async.CodesAreOwn` | client/asyncjob.c:21-63 | for every interleaving of clients a code given to a client is that of its own job, if fewer than 32767 jobs were accepted since |
| `Async.FetchExact` | client/asyncjob.c:52-63 | a fetch in a session is answered if and only if a result is held and the number of jobs accepted since the client's own is a multiple of 32767; what it gets is the last accepted job's, so its own if and only if none was accepted since; elsewhere there is no whole answer |
| `Async.PollExact` | client/asyncjob.c:36-72 | a busy or unreachable daemon leaves the client polling, a refusal sends it away, and a status line makes it ask for its result if and only if a result is held under its number |
| `Async.PollDelivers` | client/asyncjob.c:36-63 | a client that polls while the result of its own job is held gets the code and output of that job |
| `Async.StaleFetchIsAnothers` | daemon/session.c:133-141 | the bound is sharp: with exactly 32767 jobs accepted since, and a result held, the client that asks in a session is given the last job's code |
| `Async.StaleCodeHappens` | daemon/session.c:133-141 | for every positive multiple of 32767 a run of the system, from its start and session by session, in which a client is given another job's code, 1 where its own was 0 |
| `Async.BrokenFetchIsFinal` | client/asyncjob.c:52-63 | after a broken fetch no continuation gives that client a code |
| `Async.BrokenFetchHappens` | client/asyncjob.c:52-61 | a run of the system, from its start and session by session, in which a fetch that would have been answered breaks off and the client is lost |
| `Session.Daemon.EnvCommand` | daemon/session.c:508-543 | ENV overwrites the entry of that name or appends, or refuses with the right line |
| `Session.SetEnvSets` | daemon/session.c:508-543 | ENV is accepted exactly when the name is a shell name of fewer than 64 characters, the value has fewer than 192 and the name is known or there are fewer than 32; then it sets that variable and no other, and the table stays proper |
| `Session.TablesStayOk` | daemon/session.c:592-611 | in every session the table handed to a job has distinct valid names, and the shell reads back exactly it from the script |
| `Session.NothingWithoutToken` | daemon/session.c:366-385 | unless the first line is AUTH with the token the session ends after it, changing nothing |
| `Session.RespondIsEvent` | daemon/session.c:428-682 | every line of a session is one step of the job protocol |
| `Session.Daemon.RunPendingJob` | daemon/main.c:37-65 | in place: a pending job runs once, its outcome replaces the result and the capture files, and the files are those it leaves |
| `Session.RunaNamesJob` | daemon/session.c:592-611 | RUNA answers with the number of the job it accepts, counted round after 32767 |
| `Session.ResultIsLastJobs` | daemon/session.c:613-632 | RESULT is answered exactly when a result is held and the last job accepted is named, and then with that job's code and capture files |
| `Session.PutStores` | daemon/session.c:212-282 | PUT, whatever bytes follow: a complete upload is what its path then holds, any other leaves no file there; no other file and nothing else of the session changes, and the session ends exactly when the transfer breaks off |
| `Session.UploadKept` | daemon/session.c:212-282 | a file sent with PUT is at its path, every byte of it, and its length is told, exactly when cap and space allow it |
| `Session.PutRefused` | daemon/session.c:222-228 | a path that is empty or cannot be created is refused with its line, and nothing is read or done |
| `Session.GetDelivers` | daemon/session.c:284-314 | the client gets exactly the file at the path, or the error line, and nothing of the session changes |
| `Session.PutThenGet` | daemon/session.c:665-672 | a file sent with PUT and asked for with GET in one session comes back to the client byte for byte |
| `Session.RunReports` | daemon/session.c:545-591 | RUN runs the command in the session's directory with its variables: the client gets its exit code and output, the files are as it left them, and a held result is given up |
| `Session.FirstRun` | daemon/session.c:428-482 | a session starts with no login and no variables, whatever the one before set: after AUTH its first command is run with none, in the directory and on the files as they were left |
| `Session.RunaAccepts` | daemon/session.c:592-612 | RUNA accepts the job with this command and the variables as they are, under the next number, and ends the session |
| `Session.ResultDelivers` | daemon/session.c:613-633 | RESULT under the held number gives the client its code and files and keeps them; under any other it gives none |
| `Session.JobThenResult` | daemon/main.c:37-65 | a job from RUNA over its run to STAT and RESULT in the next session: its number is named and its code and output delivered, or there is no result if it could not be run |
| `Session.StatTells` | daemon/session.c:487-497 | STAT names the held result, or says idle, and changes nothing |
| `Session.CwdMoves` | daemon/session.c:498-507 | CWD changes the directory to where the system goes from the one before, or refuses and changes nothing |
| `Session.EnvLine` | daemon/session.c:508-544 | an ENV line sets its variable and nothing else of the session, or is refused and changes nothing |
| `Session.PingLine` | daemon/session.c:483-486 | PING says OK and changes nothing |
| `Session.QuitLine` | daemon/session.c:673-676 | QUIT says OK, changes nothing and ends the session |
| `Session.NoCommandLine` | daemon/session.c:545-612 | RUN and RUNA without a command are refused and change nothing |
| `Session.UnknownLine` | daemon/session.c:676-680 | a line of any other verb is refused and changes nothing |
| `Session.NoLineEnds` | daemon/session.c:449-469 | the end of the stream ends a session without an answer, a line of 1024 characters or more with an error line |
| `Session.ObeyedIsRun` | daemon/session.c:428-682 | the events its lines spell lead the job protocol to where the session is after any number of commands; a job accepted is the last RUNA told, ends the session and waits to be run |
| `Session.ServeIsObeyed` | daemon/session.c:428-682 | a session that nothing cuts short obeys its commands up to the one that ends it |
| `Session.Daemon.ServeAll` | daemon/main.c:88-104 | the serving loop over distinct channels: each visit has what its channel brought and the end its job was given, the daemon is left exactly as that list of visits leaves it, and on every channel that still takes bytes the visit is a whole session with greeting, every answer and the rest unread |
| `Session.LifetimeIsRun` | daemon/main.c:88-104 | over every list of sessions, wherever each is cut short and however its job ends, the job protocol run from its start on the events of those very lines and ends reaches the daemon's counter, job, result and capture files, with the RUNA lines obeyed and their ends as its history; a result held has the number, code and files of the last of them |
| `Session.Daemon.Obey` | daemon/session.c:470-680 | one command on the channel answers, changes the session and leaves the input as specified; when an answer does not get through the session ends, and the command is done or, at the first answer to AUTH or PUT, leaves no login or an empty upload |
| `Session.Daemon.SessionRun` | daemon/session.c:428-682 | a whole session, from any channel input, is the fold of its commands up to the one that ends it; when the peer stops taking bytes the daemon is left exactly as after some number of commands, or with one AUTH or PUT more that got no answer |
| `Session.DaemonInStep` | daemon/session.c:449-682 | the daemon takes exactly the bytes of each pipelined request and answers it as if it came alone |
| `Session.ClientInStep` | client/remote.c:208-225 | reading the answers one after the other the client takes exactly each answer |
| `Session.EndsInStep` | daemon/session.c:428-682 | over every conversation of requests within the caps both ends consume exactly what the other produced |
| `Session.CtlSession` | daemon/session.c:387-426 | a control session answers as specified and has no other effect |
| `Session.ControlOneLine` | daemon/session.c:411-424 | each authenticated line but QUIT gets one line: OK for PING, the busy job for STAT, a refusal for anything else |
| `Session.ControlNeedsToken` | daemon/session.c:387-410 | unless its first line is AUTH with the token a control session is over after one line |
| `Live.InputFrameReads` | daemon/live.c:125-169 | an input frame is read back as its payload, and exactly header and payload are taken |
| `Live.ClientLineIs` | daemon/live.c:125-169 | each line of the client is K, the end of its input, a header with its input, or a violation |
| `Live.ListenTo` | daemon/live.c:125-169 | input frames sent by a client are heard as exactly their data, and nothing after them is touched |
| `Live.MeantBeforeEnd` | daemon/live.c:125-169 | what the child is meant to get is what the client sent before its K or end of input, however much it sends after |
| `Live.ChildTakesPrefix` | daemon/live.c:125-169 | after every schedule: exactly the heard frames are taken from the client; the child has a prefix of what was meant for it, all of it while open and not signalled, and as much as it has room for until the output passes the cap; it is signalled exactly if the client said K or the output passed the cap |
| `Live.NothingAfterKill` | daemon/live.c:149-151 | once the child has been signalled it is given nothing more, whatever the rest of the schedule |
| `Live.YieldIs` | daemon/live.c:315-334 | what a pipe yields is everything read of that pipe before its first end of file |
| `Live.Supervisor.Pump` | daemon/live.c:96-123 | what is read from a pipe goes out as one frame under the pipe's tag; end of file closes it |
| `Live.Supervisor.Feed` | daemon/live.c:151-165 | the child's input takes the whole payload or as much as it has room for, and is then closed off: the step `Offer` of the child model |
| `Live.Supervisor.RuniFrame` | daemon/live.c:125-169 | one client frame: exactly its header and payload are taken from the session, it fails exactly on what is no frame, and its input goes to a child that is open and not yet signalled |
| `Live.Supervisor.CheckCap` | daemon/live.c:335-342 | the first time the cap is passed: one notice, and the child is killed |
| `Live.Supervisor.Turn` | daemon/live.c:261-401 | one turn in the RUN and RUNI modes: both pipes advance by what was read, the client's bytes and the child move as `NextInner` says, the loop ends exactly when both pipes are at their end, with the child reaped; a lost session has one of three reasons and gives the child nothing |
| `Live.LiveExec` | daemon/live.c:171-426 | for a RUN or RUNI job, every schedule and every end (still running, a code, -1 or session lost): O and E payloads are the bytes read from each pipe in order with at most one notice, exactly one when the cap was passed; child, signal and the client's unread bytes are those of `After`; a code comes on the first turn that finds both pipes at their end, with the child reaped; the session is lost as soon as the client breaks the silence of RUN or sends what is no frame |
| `Live.CodeTells` | daemon/live.c:409-413 | the code of a job that ended is its own exit status when below 256, 128 and the signal when that is below 128, and -1 exactly when there was neither |
| `Util.FitAppend` | common/util.c:20-36 | cutting early and appending keeps exactly what cutting at the end would |
| `Util.StrLcpy` | common/util.c:4-18 | the buffer holds as much as fits, ended by NUL, and the wanted length is returned |
| `Util.StrLcat` | common/util.c:20-36 | the buffer holds as much of the concatenation as fits, and the wanted length is returned |
| `Shell.QuotedIsOneWord` | daemon/exec_psx.c:26-55 | unquoting by the POSIX rules undoes quoting: one word, the original string, for every string |
| `Shell.NamesAgree` | daemon/session.c:324-339 | the names the session accepts are exactly those the shell takes |
| `Shell.ExportsRead` | daemon/exec_psx.c:64-71 | the shell sets exactly the given variables, in order, and then comes to the command |
| `Shell.ScriptReads` | daemon/exec_psx.c:57-77 | the same for a whole script |
| `Shell.RedirectionsRead` | daemon/exec_psx.c:84-91 | the two redirections name exactly the capture files |
| `Shell.CatQuoted` | daemon/exec_psx.c:26-55 | succeeds exactly when the whole quoted word and a NUL fit, and then appends it |
| `Shell.BuildScript` | daemon/exec_psx.c:57-77 | success exactly when the whole script fits, and then the buffer holds it uncut, although intermediate appends are unchecked |
| `Shell.CommandLine` | daemon/exec_psx.c:84-93 | the same for the command line with redirections |
| `Pathmap.UnderIsComponentPrefix` | client/pathmap.c:31-42 | on clean paths a map applies exactly when its components are the first of the directory's |
| `Pathmap.RootPrefix` | client/pathmap.c:31-42 | the local prefix "/" applies to no clean directory but the root |
| `Pathmap.PfxNormLen` | client/pathmap.c:20-29 | trailing slashes are ignored, though one character is kept |
| `Pathmap.NormIgnoresSlash` | client/pathmap.c:20-29 | a slash put after a nonempty prefix makes no difference |
| `Pathmap.PfxMatch` | client/pathmap.c:31-42 | the length taken, or -1, at component boundaries only |
| `Pathmap.Choose` | client/pathmap.c:211-238 | the first of the longest matching prefixes; none exactly when none matches |
| `Pathmap.PmBuild` | client/pathmap.c:44-69 | the mapped directory with no doubled separator, refused exactly when it does not fit |
| `Pathmap.PmCwd` | client/pathmap.c:194-261 | no map, the directory under the best map untruncated, or an error exactly because it does not fit |
| `Pathmap.ParseReads` | client/pathmap.c:240-256 | a value with a bar is local prefix, remote prefix and, after a second bar, the separator; without one the separator is a backslash if the remote prefix has any; a value without a bar is no map |
| `Pathmap.EntriesAre` | client/pathmap.c:213-230 | every value with a bar is a map, in the order of the numbers, and no other is |
| `Pathmap.RemoteIs` | client/pathmap.c:44-69 | component by component: below the local prefix each component comes after a separator of the map, none doubled where they meet |
| `Pathmap.SameLetter` | client/pathmap.c:71-95 | case is that of the 26 letters and counts unless the map has backslashes |
| `Pathmap.FirstHitIs` | client/pathmap.c:143-183 | the map that applies at a position is the lowest-numbered one whose remote prefix stands there |
| `Pathmap.AtMatch` | client/pathmap.c:82-95 | matches exactly the remote prefix, case-insensitively when asked |
| `Pathmap.PmBackLine` | client/pathmap.c:97-192 | the line becomes its back-mapped form, cut at the scratch buffer and the line buffer; with no maps it is left alone |
| `Pathmap.MappedReadsBack` | client/pathmap.c:97-192 | a mapped directory named anywhere in a line comes back as the local one, and the line around it unchanged, exactly when nothing after the prefix is a backslash and no separator was dropped at the junction |
| `Pathmap.RewrittenUnder` | client/pathmap.c:158-180 | whatever follows a remote prefix in its token is rewritten, and the result lies under the local prefix if and only if nothing follows it or a separator does |
| `Pathmap.SiblingIsRewritten` | client/pathmap.c:158-180 | a sibling of the remote directory, named by one component, is rewritten to the sibling of the local one, which the map does not cover |
| `Pathmap.SlashMapReplaces` | client/pathmap.c:158-182 | under a map without backslashes the remote prefix alone is replaced |
| `Pathmap.SiblingExample` | client/pathmap.c:158-180 | one such sibling: with `/mnt/proj` mapped to `Z:\proj`, `Z:\project` becomes `/mnt/project` |
| `Pathmap.PiecesAreBack` | client/pathmap.c:97-192 | the pieces the code copies and replaces are, put together, the line it writes |
| `Pathmap.AsDocumented` | client/pathmap.c:97-192 | the code makes of a line the pieces that the documentation says, tokens replaced that begin with a remote prefix, if and only if every place where it puts in local text is the start of the line or follows a blank, a tab or a double quote |
| `Pathmap.DocumentedLeaves` | client/pathmap.c:97-192 | the documented filter leaves a line alone in which no token begins with a remote prefix |
| `Pathmap.InsideTokenExample` | client/pathmap.c:143-183 | such a line that the code changes: the remote prefix stands inside a token |
| `Mapback.FeedAppend` | client/remote.c:278-303 | how the payload is cut into frames makes no difference |
| `Mapback.LinesAreFiltered` | client/remote.c:267-303 | text goes out line by line, each line mapped on its own |
| `Mapback.LineIsMapped` | client/remote.c:267-278 | a line goes out as the mapper turns it, up to 2046 characters, and as it is when there are no maps |
| `Mapback.LongLine` | client/remote.c:280-303 | of a line that outgrows the buffer the part that does goes out as it is and only the rest is mapped; nothing is lost |
| `Mapback.Filter.EmitLine` | client/remote.c:267-276 | the gathered line goes through the mapper, up to its first NUL |
| `Mapback.Filter.MbFeed` | client/remote.c:278-303 | one frame's payload, character by character, is the specified fold |
| `Mapback.FilterStream` | client/remote.c:278-315 | a whole stream in any frames, the unfinished last line included, depends on its text only |

## Left out

- Sockets, serial lines and the network layer (`common/net.c`, `common/ser_psx.c` and their kin): a channel is a byte sequence with an arbitrary schedule of partial reads and writes, and a peer that may stop taking bytes.
- Once the peer has stopped taking bytes (a failed write) nothing is claimed about what was sent, nor how many commands were still obeyed; the state they leave is.
- Files that others change while the daemon serves are not modelled: commands, uploads and jobs change them.
- Windows and DOS code (`daemon/live_w32.c`, `daemon/exec_w32.c`, `daemon/exec_dos.c`, the Win32 branch of `common/textcv.c`): it rests on calls of those systems.
- The seventeen attribute words that a stat gives (`nfsd/nfs.c:108-142`), and the hash functions, are parameters.
- Option and configuration parsing, logging, signals, the allow list, greetings parsed by the client, timeouts and interactive mode of the client (`client/main.c`, `client/ixmode.c`, `client/toolias.c`, `common/conf.c`, `common/acl.c`, `nfsd/main.c`, `tools/gcdslog.c`): the map values of `client/pathmap.c` are parameters, taken as shorter than the configuration's own limit.
- Text conversion inside sessions and supervised jobs: `TextCv` proves the converter, `Output`, `Session` and `Live` are with conversion off.
- `Session` is the build without supervised execution; RUN and RUNI on the other builds are `Live`. The LIVE_JOB mode of `daemon/live.c:363-391`, where the child writes the capture files itself, is a step with an arbitrary outcome in `Async`.
- Live.LiveExec: after a lost session nothing is claimed about reaping; signals sent are a counter, not their delivery.
- An upload that overwrites a capture file, or a command that does: `Async` and `Session` take the capture files to be written by jobs only.
- Transfer.DoPut: disk errors are a bound on the space; a failing close counts as one.
- Transfer.XferGet: of the block whose write fails, some bytes may follow in the file; the model keeps the blocks before it. Only when the local file cannot be created is the rest of the transfer read from the session.
- Local writes of the client's own output are taken to succeed, in `Output` and `Mapback`.
- Gnfsd.ParseCall: the user and group of AUTH_UNIX credentials are not kept: no procedure uses them.
- Gnfsd.Server.HandleOne: datagrams are at most 65536 bytes, what the receiving buffer takes.
- Handlers.Procedures.Perform: the directory named in UMNT is not read; it has no effect.
- Handlers.Procedures.List: the names are all examined before the first is written; examining changes nothing.
- Nfs.RunStaysInside: paths are lexical. What a symbolic link inside the export leads to is the system's business.
- Handles.FhTable.InternPath: allocation failure, and with it the I/O error answer to it, is not modelled; the growing arrays are sequences.
- Handles.HandleSurvivesRestart: needs that the hashes involved do not collide and are not the reserved zero; the hash functions themselves are not modelled.
- The export root is taken as set and not "/": with an empty root the lookup loop of `nfsd/handle.c:205-213` need not end.
- Readdir.ReadDirectory: directories of fewer than 2^32 entries with names up to 255 bytes, the system's own limits.
- The clock of the NFS server does not go back, and a client uses a transaction number for one call at a time: the cache key has no procedure number.
- Decimal.AtolPrint: numbers are unbounded where the C library's `atol` overflows.
- Shell.QuotedIsOneWord: the reader stops at anything a bare word would have expanded; what expansion does is not modelled.
- Pathmap.MappedReadsBack: for maps that convert back with a backslash and a directory without blanks or double quotes, since a token ends there.
