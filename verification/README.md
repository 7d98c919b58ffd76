# An NFSv3 server, verified

A Dafny model of an NFSv3 server cut down from the Linux kernel's knfsd. The protocol is that of RFC 1813; messages
are in the external data representation of RFC 4506. `dafny verify dfyconfig.toml` checks the whole project.

The kernel below the server (page memory, directory iteration, file identifiers, reference counts, `notify_change`,
`vfs_writev`, `vfs_fsync_range`, the export cache) is modelled as state with contracts. Which of its calls fail is a
parameter or left open, so every claim holds for every pattern of failures. What is proved is about the server's own
code above it.

## What is proved

**Directory replies** (`DirWire`, `PageMemory`, `DirEncoder`). The encoder writes entries in place into pages that lie
anywhere in memory, builds an entry that may cross a page end in the next page and moves it back whole or in two pieces,
and fills in each cookie one entry late, through one or two pointers. After any sequence of `encode_entry` calls the
reserved pages hold exactly the flat encoding of the accepted entries, nothing outside them has changed, the budget is
exact, and the pending pointers are on the two words of the last cookie.

Three things one would like to say are false, and each has its exact condition and a run of the code into it
(`DirLimits`):

- The cursor leaves its page if and only if attributes come with a handle of 61 to 64 bytes, the entry ends just at the
  page end, and the next page lies elsewhere (`FallsOff`; `DirLimits.FallOff`). If that is the last entry, the reply is
  not as long as its entries: where no page of it begins behind that page, all its pages are sent
  (`DirLimits.OverlongReply`).
- The last patch damages the reply if and only if it comes after a refused entry, the cookie straddles two pages, and
  behind the first of them begins another page of the reply whose first word differs from the low half of the cookie
  (`Spoiled`; `DirLimits.SpoiledReply`).
- The last patch changes memory outside the reply if and only if it comes after a refused entry, the cookie straddles,
  no page of the reply begins behind its page, and the word there differs (`Leaks`; `DirLimits.LeakyReply`).

**Pagination** (`DirentBuffer`, `Listing`, `Readdir`). From the file system through the buffer page and the encoder to
the words on the wire, the reply is exactly the encoding of the entries that have room, outside the cases above. A
client that sends request after request, each from the last cookie, until eof gets every entry once and in order, and it
gets to eof exactly when its count has room for every single entry. The handle that comes with an entry of READDIRPLUS,
sent back, leads to the object that the entry's name means (`PlusReply`).

**Handles and references** (`HandleWire`, `Handles`, `Requests`, `NameRuns`, `Exports`). A handle the server made comes
back as the same export and file, and it is known exactly which other bytes are refused as bad or stale. Every
procedure, whatever fails and wherever, has exactly the status and the effect on the names that it should, and leaves
all dentry, export and mount write counts as they were: what was created is found with the same handle, what was
removed is not, and removing undoes creating; and every handle it sends is that of an object with an inode, namely the
one that the name means in the directory that the client's handle names. A provisional handle, made for a name without
an inode, is never sent.

**Server lifetime** (`Notifier`, `Lifetime`, `Overlap`). Any number of address-event handlers and of calls of
nfsd_create_serv and nfsd_destroy, in any namespaces, interleave step by step; nothing keeps the calls apart, since the
code has no lock around them. Over every such run, nothing goes wrong (no pointer to a freed server is left behind, no
live server loses its pointer, no count is off, nobody follows a null pointer or a freed server, and the notifier is
registered while it has users) if and only if every step is orderly, which is a condition on the state before the step:
no bind fails, sv_nrthreads goes to zero in a call that read it as one and only there, a reference is taken to a live
server, a new server goes to an empty pointer that nobody is about to clear, and the notifier is not unregistered while
it has users. If creation is kept apart from everything else, the first two decide; if calls are made one at a time, the
first alone. `Overlap` has runs of the code that break something: a bind that fails, two threads that leave at the same
time, two creators, a creator that gets no memory beside one that does, a creator and a shutdown, a reference dropped
too late, and two namespaces at the notifier; and a whole life of a server in which nothing does. A shutdown that waits
can always finish.

**Requests** (`ReadFile`, `StableWrite`, `Setattr`, `Args`, `Replies`). READ puts exactly the bytes of the file on the
wire and a client that reads piece by piece reassembles the file. Bytes acknowledged as committed survive any run of
writes and crashes exactly on synchronous exports. SETATTR, from its arguments on the wire to the object, does in two
kernel calls what one update would; its guard does what the protocol asks exactly where `Setattr.GuardIsExact` says.
Argument decoders invert the grammar. Replies are read back by the client and fit their declared sizes.

`Xdr`, `LittleEndian`, `Attr`, `Paging` and `Options` hold what the others share.

## Where code and documents differ

- `decode_file_handle`, `decode_file_name` and `encode_fattr3` are stubs in xdr.c; the repository's own README.md says
  on lines 166-258 what they are to do, and that is modelled.
- The SETATTR guard of RFC 1813 is a ctime in seconds and nanoseconds, and a mismatch refuses any request; vfs.c lines
  205-211 compare seconds only, and only for a request that asks for something. `Setattr` has a run of each kind that
  the protocol would refuse, and the exact condition.
- WRITE on an asynchronous export replies with the stability that was asked for although nothing is synced
  (proc.c line 163, vfs.c lines 394-395). `StableWrite` shows a run that loses such data and proves the claim exact.
- `nfsd_eof_on_read` takes every short read for the end of the file (vfs.h lines 92-94). `ReadFile.EofIsExact` says when
  that is right, and `ReadFile.ShortReadEndsFile` shows when it is not.
- The size of a READDIRPLUS entry is estimated with 16 words for a handle that takes 17 (xdr.c line 617).
- A refused entry clears the second cookie pointer but not the first (xdr.c lines 634-638), so that the last patch
  (proc.c lines 361-370) takes a straddling cookie for a contiguous one.
- REMOVE, RMDIR and LOOKUP arguments are accepted whatever their length (xdr.c line 202); `Args.DecodeStaleName` runs
  the decoder into a name that is not in the request.
- The count of the notifier's users is said to be used under a mutex only (nfssvc.c line 137). There is no such mutex:
  each leaving thread calls nfsd_destroy (nfssvc.c line 365), and so does each write to the threads file (nfssvc.c line
  299, bmw_main.c lines 202-221); the call reads sv_nrthreads and only later drops its reference. `Overlap` says what
  that leads to.

## Model

| member | source | states |
|---|---|---|
| `DirWire.TakeDirListFlat` | xdr.c:513-549 | a client that reads the entries one after the other and the trailer gets the entries and the eof flag back |
| `DirWire.ReplyReadsBack` | xdr.c:513-535 | a READDIR or READDIRPLUS result in flat form is read back exactly, whatever follows it (sections 3.3.16 and 3.3.17 of RFC 1813) |
| `PageMemory.HoldsExtendAt` | xdr.c:671-678 | writing words behind what the pages hold, inside one page, makes the pages hold the longer sequence |
| `PageMemory.HoldsMovedBack` | xdr.c:679-704 | the same when the words are first built in the next page and then moved back whole |
| `PageMemory.HoldsSplitBack` | xdr.c:705-733 | the same when they are moved back in two pieces over the page end |
| `PageMemory.StoreBehind` | proc.c:361-370 | what one word stored behind a page does: the reply is damaged, and the rest of the memory changed, exactly under the stated conditions on the pages |
| `DirEncoder.EstimateBounds` | xdr.c:616-617 | a plain entry takes exactly its estimate; with attributes and handle the estimate is 39 words more, and bounds the entry exactly when attributes do not come with a handle of 61 to 64 bytes, and otherwise falls short by one word |
| `DirEncoder.PatchedFlat` | xdr.c:631-642 | filling in the last cookie changes its two words of the flat encoding and no other |
| `DirEncoder.ReaddirRes.constructor` | proc.c:328-340 | a fresh reply is valid, with the whole budget left and no pending cookie |
| `DirEncoder.ReaddirRes.Build` | xdr.c:537-604 | an entry with its baggage is stored contiguously and the cookie pointer is on its cookie |
| `DirEncoder.ReaddirRes.PatchCookie` | xdr.c:631-642 | with intact pointers the pages then hold the entries with the cookie filled in and nothing outside them changes; with the second pointer lost, the pages are right if and only if no other first word of a page of the reply is overwritten, and the rest of the memory is untouched if and only if the word belongs to a page or had this value |
| `DirEncoder.ReaddirRes.CurrentPage` | xdr.c:661-669 | the page scan finds the page of the next free position, and the cursor's place in it |
| `DirEncoder.ReaddirRes.EncodeHere` | xdr.c:671-678 | an entry with room in the page extends what the pages hold, and the pointers are on its cookie |
| `DirEncoder.ReaddirRes.MoveBack` | xdr.c:695-704 | so does an entry that is moved back whole |
| `DirEncoder.ReaddirRes.RelocateCookie` | xdr.c:706-724 | the cookie pointers follow the split in all three cases, and the BUG_ON cannot fire |
| `DirEncoder.ReaddirRes.MoveBackSplit` | xdr.c:705-733 | so does an entry that is split over two pages |
| `DirEncoder.ReaddirRes.EncodeAcross` | xdr.c:679-734 | either way of building an entry in the next page extends what the pages hold and leaves the cursor at the next position |
| `DirEncoder.ReaddirRes.Place` | xdr.c:661-739 | whichever branch is taken, the entry ends up behind the others; the cursor is at the next position exactly if the entry does not fall off its page |
| `DirEncoder.ReaddirRes.EncodeEntry` | xdr.c:618-745 | an entry is accepted exactly if the budget covers its estimate; the pages hold the flat encoding of the accepted entries, the previous cookie is the new entry's offset, the budget drops by exactly the words written, nothing outside the pages changes, and the cursor stays in its pages exactly if the entry does not fall off |
| `DirEncoder.ReaddirRes.CountWords` | proc.c:350-360 | the scan over the pages at the end finds the position of the cursor, which is the number of words written unless an entry fell off, and counts all the pages if the cursor is in none |
| `DirLimits.ListStraddling` | proc.c:314-373 | a directory of 228 named entries and a count for which an entry is refused after one whose cookie straddles; what its listing sends and changes depends on the pages alone |
| `DirLimits.SpoiledReply` | proc.c:361-370 | a request whose reply is not the encoding of its entries, because the first page lies behind the second |
| `DirLimits.LeakyReply` | proc.c:361-370 | a request that changes a word outside the pages of its reply |
| `DirLimits.OverlongReply` | proc.c:350-360 | a request whose reply is two pages although its entries take one, because the last of them fell off |
| `DirLimits.FallOff` | xdr.c:671-678 | a run of the encoder, with a full-size handle, that ends with the cursor in none of its pages |
| `DirentBuffer.RecordFields` | vfs.c:816-852 | the fields of a buffered record are read back as written |
| `DirentBuffer.RecLenExact` | vfs.c:838 | a record takes its head of 24 bytes and the name, rounded up to the next multiple of eight |
| `DirentBuffer.ReaddirData.Filldir` | vfs.c:831-852 | a record is appended exactly if it fits the page, else the buffer is marked full and keeps its records |
| `DirentBuffer.ReaddirData.Read` | vfs.c:889-904 | the record at the recomputed offset is the one that was put there |
| `DirentBuffer.SizeAtEnd` | vfs.c:889-906 | a walk with recomputed record lengths reaches the used size exactly after the last record |
| `Listing.TakenFit` | vfs.c:854-918 | every entry a reply takes fits the budget it started with |
| `Listing.TakenFills` | vfs.c:854-918 | a reply is full: its entries stay within the budget, up to one word, and the estimate of the next entry would not |
| `Listing.EntriesTell` | xdr.c:606-650 | the entries of a reply carry the inode numbers and names of the file system, names cut off after 255 bytes, each with the position of the entry after it, and for READDIRPLUS its attributes and handle |
| `Listing.SessionComplete` | proc.c:278-373 | whatever the counts, a client that sees eof has every entry exactly once and in order |
| `Listing.SessionEnds` | proc.c:278-373 | with one count throughout, it sees eof within as many requests as entries if and only if every entry fits a reply by itself |
| `Listing.ResumeAfter` | xdr.c:631-642 | going on from the cookie of any returned entry continues right after that entry |
| `Readdir.DirFile.Iterate` | vfs.c:870-882 | the buffer gets a run of entries from the file position on, not empty before the end unless the call fails, and is full only if the next one does not fit; the file system may take a full buffer for a failure |
| `Readdir.Emit` | vfs.c:890-898 | one buffered entry goes into the reply exactly if it has room; the cursor is then where the entries end exactly if the entry does not fall off its page, and behind that page if it does; nothing outside the pages changes |
| `Readdir.Walk` | vfs.c:889-906 | all records go into the reply, or some are left over and the reply is as full as it gets; nothing outside the pages changes |
| `Readdir.HandOut` | vfs.c:884-908 | handing out what was buffered ends the listing exactly if nothing was or an entry had no room |
| `Readdir.Round` | vfs.c:870-909 | one round fails, ends the listing or makes progress; nothing outside the pages changes |
| `Readdir.BufferedReaddir` | vfs.c:854-918 | the reply ends up with exactly the entries that have room, eof exactly at the end, and the offset is that of the first entry not in it; nothing outside the pages changes |
| `Readdir.Seek` | vfs.c:937-941 | the position of a cookie is that of its entry; a cookie that is negative as an offset is refused, and one that is no entry's position leads anywhere or is refused |
| `Readdir.ReservePages` | xdr.c:353-377 | the pages reserved have room for the budget and the two words of the trailer |
| `Readdir.CountFilled` | proc.c:288-300 | in bytes: with the trailer a reply stays within the client's count or the largest payload, up to one word, and the next entry would not fit |
| `Readdir.TrailerExactly` | xdr.c:513-535 | the trailer is sent exactly if it fits the head page |
| `Readdir.Settle` | proc.c:361-370 | after the last patch the pages hold the entries' flat encoding if and only if the reply is not spoiled, and the rest of the memory is as before if and only if nothing leaks |
| `Readdir.Finish` | proc.c:350-370 | the words sent are the flat encoding of the entries with all cookies filled in if and only if the reply is not spoiled and its last entry did not fall off; if it did, all the pages are sent unless one of them begins where the cursor is |
| `Readdir.SuccessorsNotSpoiled` | proc.c:361-370 | no reply is spoiled if a page lies directly behind another only where it follows it |
| `Readdir.SmallHandlesSteady` | xdr.c:616-617 | no entry falls off if all handles have at most 60 bytes |
| `Readdir.Abandon` | proc.c:361-370 | the patch after a directory could not be read stays in the pages |
| `Readdir.EncodeReadsBack` | xdr.c:513-535 | head, entries and trailer are read by a client as the entries and the eof flag |
| `Readdir.Request` | proc.c:278-373 | from arguments to wire: the reply is the encoding of exactly the entries from the cookie on that have room for the clamped count, with the right eof flag, if and only if it is not spoiled and its last entry did not fall off, and a client then reads them back; memory outside the pages is as before if and only if nothing leaks; a cookie the directory does not know, or a negative one, is covered; names and inode numbers in it are those of the file system |
| `Readdir.CleanEnough` | xdr.c:616-617 | handles of at most 60 bytes and pages that adjoin only in order are enough for a right reply |
| `Readdir.Exchange` | proc.c:278-373 | one request and reply: what the client reads is what the directory has to offer |
| `Readdir.ListAll` | proc.c:278-373 | a client that sends requests from cookie to cookie until eof: if it sees eof it has every entry exactly once and in order, with the file system's inode number and its name up to 255 bytes |
| `HandleWire.HandleRoundTrip` | nfsfh.c:53-129 | a composed handle resolves to the same export and file |
| `HandleWire.FailsExactly` | nfsfh.c:53-129 | exactly which bytes are a bad handle and which a stale one, down to a file that the kernel does not find, and what the others resolve to |
| `HandleWire.GoneHandle` | nfsfh.c:109-114 | the handle of a file that has been removed since is stale if the kernel says so, and otherwise bad |
| `HandleWire.HandleLayout` | nfsfh.h:54-77 | the bytes of a handle: device numbers in network order, the root's inode number in the server's, then the file's identifier |
| `HandleWire.NumberLayout` | nfsfh.h:63-65 | a handle that names its export by number has that number in the server's order |
| `HandleWire.EqualHandlesSameFile` | nfsfh.h:54-77 | equal handles mean the same device, export root and file, for minor numbers below 65536 and inode numbers below 2^32 |
| `HandleWire.EqualParts` | nfsfh.c:177-257 | handles are equal if and only if the fragments that name their exports agree and so do their file identifiers |
| `HandleWire.FragmentsEqual` | nfsfh.h:54-68 | fragments are equal if and only if the low bits of minor and inode number agree and the major numbers with the other minor bits or-ed in do |
| `HandleWire.OrBits` | nfsfh.h:59-60 | a bit of the or of two numbers is set exactly if it is set in either |
| `HandleWire.DevicesCollide` | nfsfh.h:59-60 | a world in which the roots of exports on two devices have the same handle |
| `HandleWire.InodesCollide` | nfsfh.h:61 | a world in which two export roots on one device have the same handle |
| `Handles.SvcFh.Init` | nfsfh.h:108-114 | a fresh handle is all zero and holds nothing |
| `Handles.SvcFh.Decode` | README.md:172-180 | a decoded handle has the sent bytes and size and is zero behind them, and holds nothing |
| `Handles.SvcFh.WantWrite` | vfs.h:65-72 | write access is taken unless the mount refuses it; the flag says so, and the mount's write count matches it unless it was set already |
| `Handles.SvcFh.DropWrite` | vfs.h:74-80 | the flag is off and the write count matches it again, however often it is called |
| `Handles.SvcFh.Put` | nfsfh.c:293-308 | everything the handle held has been given back and nothing else; on an empty handle nothing changes |
| `Handles.SvcFh.Parse` | nfsfh.c:64-77 | the checks accept exactly the handles of the right layout and find their parts |
| `Handles.SvcFh.SetDentry` | nfsfh.c:53-129 | on success the handle holds one reference each to the export and file its bytes name, on failure nothing; the outcome is exactly that of the specification, with each kernel call failing or not |
| `Handles.SvcFh.Verify` | nfsfh.c:154-167 | the same, and a handle that has been verified keeps what it holds |
| `Handles.SvcFh.AppendFid` | nfsfh.c:177-192 | the handle becomes the file's own exactly if the identifier fits, else it is marked invalid |
| `Handles.SvcFh.Compose` | nfsfh.c:199-257 | a file with an inode gets its own handle or an error if that does not fit, one without gets a provisional handle; references match in every case, apart from any the handle held before |
| `Handles.SvcFh.Update` | nfsfh.c:263-288 | the handle's bytes become those composed for its file exactly if that has an inode and the identifier fits; without an inode nothing changes |
| `Requests.LookupDentry` | vfs.c:36-78 | the dentry is exactly what the name means (an export root is its own parent), held together with the export, or nothing is held |
| `Requests.Lookup` | vfs.c:92-116 | the status is exactly what the name deserves: success for an object with an inode whose handle fits, no such entry for a name without inode, an error of the handle or the lookup; on success the response handle is the complete one of what the name means in the directory that the request names; references match in every case |
| `Requests.Setattr` | vfs.c:170-247 | status exact; references match in every case, write access is held after a success that had to look the handle up, and an already verified handle is left as it was |
| `Requests.CreateSetattr` | vfs.c:467-486 | references match and the handle is left as it was |
| `Requests.CheckDir` | vfs.c:507-523 | the checks of nfsd_create and do_nfsd_create, with the exact status, let only a proper name and a directory that resolves through |
| `Requests.BeginCreate` | vfs.c:496-545 | status exact; the response handle stands for the name's dentry, completely or provisionally, and references match |
| `Requests.BeginVerified` | vfs.c:541-544 | a response handle that has a dentry keeps it, and the dentry is held once more |
| `Requests.FinishCreate` | vfs.c:576-597 | the exact status of attributes, commit and handle; on success the response handle is complete and its file has an inode |
| `Requests.Create` | vfs.c:496-606 | status and inodes exact: it succeeds only if the response handle's dentry had no inode, and then that dentry and no other has got one; with a blank response handle, as in MKDIR, it is the name's; the response handle is complete; references match in every case |
| `Requests.DoCreate` | vfs.c:611-738 | CREATE likewise, except that an existing file may be reused: the mode decides exactly between reusing it and refusing |
| `Requests.CreateOrReuse` | vfs.c:667-727 | the switch over the create modes: exact status and inodes, references kept, only complete handles sent |
| `Requests.Unlink` | vfs.c:745-807 | status and inodes exact: a proper name with an inode in a directory that may be written loses it, and nothing else does; references match in every case |
| `Requests.Open` | vfs.c:263-332 | an open file holds one reference to its dentry, a failed open none; the status is that of the step that fails |
| `Requests.Transfer` | vfs.c:428-465 | READ and WRITE leave no reference beyond the handle's |
| `Requests.EntryHandle` | xdr.c:551-604 | a READDIRPLUS entry gets a handle if and only if its name means an object with an inode and the entry's inode number, other than a root as its own parent, nothing is mounted on it and the handle fits; the handle is that object's; references are as before |
| `PlusReply.Furnish` | xdr.c:551-604 | each entry of a directory gets a handle that names what the entry's name means, or neither handle nor attributes |
| `PlusReply.ListPlus` | proc.c:314-373 | the handles that a client reads from a READDIRPLUS reply resolve, in the directory's export, to the objects that their entries name, with the entries' inode numbers |
| `Requests.EntryHandles` | xdr.c:586-604 | each entry gets its own handle, exactly if one is due |
| `Requests.ServeTwo` | xdr.c:819-826 | LOOKUP, CREATE and MKDIR with their release step leave all counts as they were and send a handle exactly on success |
| `Requests.ServeOne` | xdr.c:811-817 | so do the other procedures |
| `Requests.ListPlus` | proc.c:314-373 | every handle in the reply answers for its entry |
| `Requests.Serve` | proc.c:25-432 | any procedure: its status and its effect on which names have an inode are exactly those of the specification, with each kernel call failing or not; all counts are back; and every handle sent is that of an object with an inode that its name means in the client's directory; only the root of the export is answered with a handle of the root's type |
| `Requests.ServeAll` | proc.c:25-432 | over any run of requests no reference is lost or left behind |
| `Requests.RootType` | nfsfh.c:177-192 | a handle has the type of the export's root if and only if its file is that root |
| `Requests.AnswerIsGenuine` | nfsfh.c:249-288 | an answer has the root's type if and only if the name means the root |
| `Requests.ProvisionalIsNoAnswer` | nfsfh.c:249-288 | a provisional handle is no answer for any name that means something else than the root, so none is ever sent |
| `Requests.SentHandleComesBack` | xdr.c:34-42 | a handle of a known export, sent as opaque data and sent back, resolves to the same object |
| `Requests.DotNames` | nfsd.h:147 | the names treated apart are "." and ".." |
| `NameRuns.LookupExactly` | vfs.c:92-116 | with every kernel call working LOOKUP succeeds if and only if the name means an object with an inode whose handle fits, and says no such entry if and only if it means one without |
| `NameRuns.ExistExactly` | vfs.c:667-705 | CREATE says that the name exists if and only if it is a dot name, or it has an inode and the mode forbids that |
| `NameRuns.RemoveExactly` | vfs.c:745-807 | REMOVE succeeds if and only if the name has an inode, and takes that and no other away |
| `NameRuns.CreateThenLookup` | proc.c:65-211 | LOOKUP after a successful CREATE finds the name with the same handle |
| `NameRuns.CreateThenRemove` | proc.c:174-254 | REMOVE after a successful guarded CREATE leaves the names as they were before both |
| `NameRuns.RemoveThenLookup` | vfs.c:745-807 | LOOKUP after a successful REMOVE says no such entry |
| `NameRuns.MkdirThenUse` | proc.c:213-233 | the handle that MKDIR sent works in the next request |
| `Exports.GetByName` | export.c:610-631 | the export found is held |
| `Exports.Climb` | export.c:642-647 | one step up holds the parent and lets go of the child |
| `Exports.ExpParent` | export.c:636-651 | the walk ends at the first ancestor for which anything but "not exported" is found, or at the root; the path and all dentry counts are as before and the export found is held |
| `Exports.NearestDevice` | export.c:636-651 | the export above a file is on the file's device |
| `Exports.RootFh` | export.c:660-703 | the handle is the one of the path in the nearest export above it, there is one exactly if that export is found and the handle fits, and nothing stays held |
| `Lifetime.StepKeeps` | nfssvc.c:107-254 | every orderly step of every actor keeps the invariant |
| `Lifetime.SharedKeeps` | nfssvc.c:137-149 | the notifier keeps having one user per namespace that counts, and being registered while it has users |
| `Lifetime.StepBreaks` | nfssvc.c:201-254 | a step that is not orderly does harm at once |
| `Lifetime.BrokenIffDisorderly` | nfssvc.c:107-254 | over every interleaving, with nothing to keep calls apart, a run never breaks anything if and only if each of its steps is orderly |
| `Lifetime.HandlersNeverUseFreedServer` | nfssvc.c:107-254 | in every run of orderly steps no handler has hold of a freed server, the count is the server's own reference and the handlers inside, nobody enters a namespace without a live server, and the notifier is registered while some namespace uses it and nobody is about to see to it |
| `Lifetime.NobodyInside` | nfssvc.c:149 | once the wait ends no handler of the namespace is inside |
| `Lifetime.EntersExactly` | nfssvc.c:107-131 | a handler comes in exactly by the event of an address that goes down, while the count is not zero |
| `Lifetime.InsideCameDown` | nfssvc.c:107-131 | over every run, whoever is inside came in by such an event of the namespace |
| `Overlap.DestroysOverlap` | nfssvc.c:243-254 | with creation kept apart and any number of calls of nfsd_destroy at the same time, a run never breaks anything if and only if no bind fails and the count goes to zero only in calls that read it as one |
| `Overlap.SerializedCalls` | nfssvc.c:201-254 | one call at a time, a run never breaks anything if and only if no bind fails in it |
| `Overlap.UpHasServer` | nfssvc.c:140-165 | with creation kept apart, a namespace that is up has a server: shutting a server down brings its namespace down |
| `Overlap.LeaversRace` | nfssvc.c:243-254 | from any settled state with two holders: both leave, both read two, the second to drop frees the server with its pointer in place, and the next address event uses it |
| `Overlap.LeaversRaceHappens` | nfssvc.c:201-254 | that happens in a run from the start in which no bind fails |
| `Overlap.BindFailureDangles` | nfssvc.c:218-222 | a failed bind leaves a pointer to a freed server |
| `Overlap.CreatorsRace` | nfssvc.c:206-216 | two calls that both find no server make two, and nobody points to the first |
| `Overlap.GetRacesShutdown` | nfssvc.c:206-254 | a call that finds a server whose last thread is leaving ends up with a server that nobody points to |
| `Overlap.NotifierRace` | nfssvc.c:140-149 | the last user of the notifier and a new first one leave it unregistered with a user |
| `Overlap.FailedCreatorRace` | nfssvc.c:206-216 | a creator that gets no memory clears the pointer that another has just set, under a handler that has seen it |
| `Overlap.GetInTime` | nfssvc.c:206-254 | a reference taken during a shutdown and given back before its end does no harm |
| `Overlap.LateDrop` | nfssvc.c:243-254 | the same reference given back after the end follows a null pointer |
| `Overlap.WholeLife` | nfssvc.c:140-254 | creation, coming up and the leaving of the only holder bring everything back but the freed server |
| `Overlap.HandlerLeavesNothing` | nfssvc.c:107-131 | a handler on its own uses the server that the pointer is to, if any, and leaves everything as it was |
| `Overlap.LetOut` | nfssvc.c:107-131 | a handler inside can always get out |
| `Overlap.ShutdownCompletes` | nfssvc.c:140-254 | a waiting shutdown of a server with no other holder can reach its end, with the server freed and the pointer cleared, without any new event |
| `ReadFile.BuildVector` | xdr.c:235-245 | the pieces add up to exactly the clamped count, in full pages except perhaps the last |
| `ReadFile.Scatter` | vfs.c:345-356 | the first bytes of the pages, read as the reply sends them, are the bytes of the file |
| `ReadFile.EofIsExact` | vfs.h:89-106 | the eof flag is right if and only if the file system read all that was there and asked for |
| `ReadFile.ProcRead` | proc.c:111-143 | the reply has the bytes read; its eof flag is right if and only if all that were available were read, and then it is what the protocol asks for, clamped requests included |
| `ReadFile.ShortReadEndsFile` | vfs.h:92-94 | a short read after which the reply wrongly says that the file ends |
| `ReadFile.EncodeReadres` | xdr.c:453-474 | head, page data and tail are together the bytes of the reply with its zero padding |
| `ReadFile.ReplyReadsBack` | xdr.c:453-474 | a client reads attributes, data and eof flag back (section 3.3.6 of RFC 1813) |
| `ReadFile.Request` | proc.c:111-143 | what is on the wire is read by the client as the bytes that are there and the right eof flag |
| `ReadFile.FetchIsFile` | proc.c:111-143 | repeated READs give exactly the file, and reach its end if and only if the clamped counts cover it |
| `ReadFile.Exchange` | proc.c:111-143 | one READ: what the client reads from the bytes on the wire is what the file has to offer |
| `ReadFile.FetchAll` | proc.c:111-143 | a client that sends READ after READ gets exactly the file from where it started, and gets there if and only if the clamped counts cover it |
| `ReadFile.FetchEnds` | proc.c:111-143 | with positive counts as many requests as bytes are enough |
| `StableWrite.File.VfsWriteStable` | vfs.c:365-421 | what was written is a beginning of the data; success and count are exactly those of the kernel calls; acknowledged as committed on a synchronous export, exactly the range written has been synced, or everything from the offset on if it is empty; for an unstable write or on an asynchronous export nothing is synced |
| `StableWrite.File.Write` | proc.c:148-172 | the same for the whole procedure; the reply repeats the stability that was asked for, and an early error leaves the file alone |
| `StableWrite.File.LoseCommittedByte` | vfs.c:394-395 | a concrete loss: a FILE_SYNC write on an asynchronous export, acknowledged as FILE_SYNC, gone after a crash |
| `StableWrite.PromisedMeans` | proc.c:163-170 | a byte is promised exactly when the last write over it was acknowledged as committed, and with that write's value |
| `StableWrite.StepKeeps` | vfs.c:365-421 | every write, write-back and crash on a synchronous export keeps all promises |
| `StableWrite.CommittedBytesSurvive` | vfs.c:365-421 | through any run of writes and crashes a committed byte reads back until it is written over, short writes included (section 3.3.7 of RFC 1813) |
| `StableWrite.AsyncExportLoses` | vfs.c:394-395 | an asynchronous export has a run that breaks a promise |
| `StableWrite.DurableIffSync` | vfs.c:394-395 | all runs keep all promises if and only if the export is synchronous |
| `Setattr.SanitizeAttrs` | vfs.c:142-165 | the adapted request keeps the file type, drops the set-id bits a chown costs, from a given mode or by flag, and changes nothing else |
| `Setattr.ApplyInTwo` | vfs.c:213-246 | the kernel calls leave everything, the resized object or the complete update, according to which of them fails |
| `Setattr.Setattr` | vfs.c:170-247 | without faults the result is one combined update; a guard mismatch in the seconds on a request that asks for something returns NOT_SYNC and changes nothing; the file type never changes |
| `Setattr.GuardIsExact` | vfs.c:205-211 | status and attributes are those that section 3.3.2 of RFC 1813 asks for if and only if there is no guard to look at, it is the ctime, or it differs in the seconds and the request asks for something |
| `Setattr.MissedGuard` | vfs.c:210-211 | a chown that a guard off by a nanosecond lets through |
| `Setattr.EmptyMissesGuard` | vfs.c:205-206 | an empty request that gets by any guard |
| `Setattr.Serve` | xdr.c:163-179 | SETATTR from its arguments on the wire: without faults and with a guard that is the ctime or none, permission bits, owner, group, size and times become exactly what the encoded arguments ask for (section 3.3.2 of RFC 1813); with any faults the outcome is that of the specification; arguments cut short change nothing |
| `Setattr.DecodedEncodes` | xdr.c:55-98 | the flags and values decode_sattr3 fills in stand for the request it decoded |
| `Setattr.ModeBits` | xdr.c:62-66 | a mode word means its low twelve bits, and the file type of the others |
| `Setattr.OneShotObeys` | vfs.c:142-247 | the one update is what the request asks for, attribute by attribute |
| `Setattr.RestApplies` | vfs.c:213-241 | size first and the rest second, or the rest alone, is the one update |
| `Setattr.SizeIsAll` | vfs.c:231-237 | skipping the second call for a size, or a size and the server's mtime, loses nothing |
| `Setattr.OneShotFacts` | vfs.c:142-165 | the update keeps the type, a chown of anything but a directory clears the set-user-id bit, and what was not asked for stays (section 3.3.2 of RFC 1813) |
| `Args.DecodeOpaque` | README.md:188-195 | a name or handle is what was encoded, and its padding is skipped |
| `Args.DecodeSetWord` | xdr.c:62-75 | an optional word is what was encoded; any discriminant but zero announces one |
| `Args.DecodeSetSize` | xdr.c:76-82 | an optional size is what was encoded; any discriminant but zero announces one |
| `Args.DecodeSetTime` | xdr.c:83-96 | a time setting is what was encoded; a discriminant of neither 1 nor 2 sets nothing |
| `Args.DecodeSattr3` | xdr.c:55-98 | attributes are what was encoded, except that an owner of all ones is ignored and the size is capped (section 2.6 of RFC 1813); exactly the encoding is used up |
| `Args.NormalExactly` | xdr.c:67-82 | attributes come out as they were sent, except exactly that an owner of all ones is not set and a size from 2^63 on is the largest offset |
| `Args.DecodeGuard` | xdr.c:172-176 | the guard is what was encoded, seconds only; any discriminant but zero announces one |
| `Args.DecodeHow` | xdr.c:309-320 | the arm of CREATE is what was encoded; an unknown mode is refused |
| `Args.DecodeStaleName` | xdr.c:194-205 | a request that stops after the length of the name is accepted, with a name made of what the page held before |
| `Args.DecodeDirop` | xdr.c:194-205 | handle and name are what was encoded; nothing is refused, and the name stays inside the request exactly if its whole encoding is there |
| `Args.DecodeSattrArgs` | xdr.c:163-179 | SETATTR arguments come out whatever follows them, and are accepted exactly if all of them are in the request |
| `Args.DecodeCreateArgs` | xdr.c:301-323 | the same for CREATE; an unknown mode is refused |
| `Args.DecodeMkdirArgs` | xdr.c:324-334 | the same for MKDIR |
| `Attr.TakeFattr3Words` | README.md:210-258 | the 21 words of the attributes are read back |
| `Attr.TakePostOpAttrWords` | xdr.c:127-149 | optional attributes are read back |
| `Replies.ReplyFits` | proc.c:451-587 | every reply of fixed shape with its status fits the declared size, for all statuses, attributes and handles |
| `Replies.ReadFits` | proc.c:501-509 | so does READ with the largest payload |
| `Replies.DeclaredExactly` | proc.c:451-455 | for the largest attributes and handles the declared sizes are exact, but for the attributes that this server never sends |
| `Replies.ReadsBack` | xdr.c:392-510 | a client reads back the reply that was sent, for every status: nothing of before an operation, as many inodes to use as are free, and a clock that counts seconds |
| `Replies.TakeFullWcc` | xdr.c:407-426 | the client understands attributes from before an operation, and the server sends none |
| `Replies.FsstatReadsBack` | xdr.c:763-782 | so for FSSTAT |
| `Replies.FsstatTells` | xdr.c:769-779 | block counts are read as bytes, if those fit 64 bits |
| `Replies.FsinfoReadsBack` | xdr.c:785-806 | so for FSINFO |
| `Xdr.TakeOpaqueOpaque` | xdr.c:34-42 | variable-length opaque data is read back, whatever follows it (section 4.10 of RFC 4506) |

## Left out

- bmw_main.c: the pseudo file system, transaction files and module start are not modelled.
- The text formats of the export caches, their request and show functions, and the cache machinery: the cache is a map
  from keys to exports; `exp_find` and `exp_find_key` appear as looking a key up in it.
- Sockets, threads, signals and RPC dispatch: not modelled, except that the count of a server's holders goes up and
  down.
- Credentials, permissions and ACCESS: the code accepts everything.
- The verifier of an EXCLUSIVE create: the code neither stores nor reads it.
- `nfserrno` and the default block size: a fixed table and a short loop.
- `nfs3svc_decode_writeargs`, `nfs3svc_decode_readargs` and `nfs3svc_decode_accessargs`: only the page vector of READ is
  modelled; handle and hyper decoding would repeat what `Args` has.
- The encoders of `Replies` are word sequences, not writes through a cursor: they have no branch but the status.
- The bytes of a handle are a field of type `seq`, since handle structures are copied whole.
- Mapping of kernel statistics to attributes in `encode_fattr3`: the attributes of an object are a parameter.
- DirEncoder.ReaddirRes.EncodeEntry: attributes and handle of a READDIRPLUS entry are a parameter; that they are those
  of the entry is stated by `PlusReply.ListPlus`.
- DirEncoder.ReaddirRes.CountWords: READDIR, which has a single page, computes the same by a subtraction.
- Readdir.Request: what the code does with further entries after one has fallen off its page is not modelled.
  The directory does not change, and has distinct positions and names whose record fits a page.
- PlusReply.ListPlus: for identifiers of at most 48 bytes and pages that adjoin only in order, so that the reply is
  right; what is wrong with the others is in `Readdir.Request`. The handles are composed before the entries are encoded.
- Handles.SvcFh.Decode: a handle of more than the 128 bytes that its structure has is not modelled.
- Handles.SvcFh.Compose: a handle with write access is not modelled; no caller has one.
- Requests.LookupDentry: whether an empty name, which the code looks at past its end, is taken for a dot name is a
  parameter.
- Requests.Setattr: the effect on references only; the attributes are in `Setattr.Setattr`.
- Requests.Transfer: the effect on references only; the data are in `ReadFile.ProcRead` and `StableWrite.File.Write`.
- HandleWire.EqualHandlesSameFile: needs the bounds on minor and inode numbers; the converse, that the same file has
  equal handles in one export, holds by definition.
- Lifetime.HandlersNeverUseFreedServer: for orderly runs; that the others break something is `Lifetime.StepBreaks`.
- Overlap.ShutdownCompletes: for a server without other holders; one with others is freed under them or kept without a
  pointer, as `Overlap.GetRacesShutdown` shows.
- Steps in a server's life: svc_get and svc_destroy are one step each, and so is each access to a counter or a pointer;
  weaker memory orders are not modelled.
- ReadFile.ProcRead: the file does not change between the read and the eof check.
- Setattr.Setattr: the clock does not advance between the two kernel calls, and a mode keeps the bits the caller may
  set.
- The attributes with which CREATE and MKDIR make an object: the mode word without its type bits, and no size for MKDIR.
- Kernel calls that wait, locks, and leases.
