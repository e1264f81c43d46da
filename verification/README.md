# newserv in Dafny

newserv is an IRC services daemon: it is a server of the network, keeps its own view of every channel, and carries a
scheduler, a module manager, hooks, a G-line store and some smaller tools. This project models the parts of it where the
state is intricate and proves what they are for.

| file | what it models |
|---|---|
| `userhash.dfy` | the per-channel user table: open addressing, deletion without tombstones, growth by rehashing |
| `ircstrings.dfy`, `match.dfy`, `patterns.dfy`, `complete.dfy`, `equalmasks.dfy` | IRC case folding, `ircd_strcmp`, the mask matcher `match`, and `mmatch`, which compares two masks: that it is sound, exactly when it is complete, and when equal masks match the same |
| `bans.dfy`, `banlist.dfy` | ban masks: parser, printer, overlap test, what a ban matches, the minimal ban list |
| `burst.dfy` | what a line of a burst means, and why the bursts of several servers converge however their lines are interleaved |
| `channel.dfy` | the channel record and `handleburstmsg`, in place, proved to do what `burst.dfy` says |
| `wire.dfy`, `roundtrip.dfy`, `sender.dfy`, `burstlimits.dfy` | `sendchanburst` and the reading of its lines: splitting, grouping, wrapping, the round trip, and where it fails |
| `membership.dfy`, `effects.dfy` | nick channel arrays and channel tables as mirror images through join, create, part, kick, burst, quit; and what each message leaves of every channel |
| `schedule.dfy` | the event heap with back-pointers, recurring events, lazy deletion, callbacks that schedule |
| `modules.dfy` | the module dependency graph, load, unload, safe reload, shutdown |
| `hooks.dfy` | the hook dispatcher with nested walks and deferred reclamation |
| `editor.dfy`, `places.dfy` | the sixteen-line editor on three linked lists, and which line each command leaves at which place |
| `glines.dfy`, `glinematch.dfy` | G-line masks, the global list, transactions and their log, and whom a G-line matches |
| `glob.dfy`, `decimal.dfy`, `duration.dfy` | the recursive glob matcher, decimal text, durations such as `1y 2M 3s` |
| `options.dfy` | an option type |

Code that only computes is modelled as functions; code that changes records, tables, arrays or lists in place is
modelled as classes and methods with loops, each proved against a function or predicate whose own properties are proved.

Things the proofs brought to light:

- A burst line may hold 511 characters but only 508 are sent; a longer line costs the last user of the line some of its
  modes, and nothing else (`BurstSender.BurstRoundTrip`). It happens exactly when some user comes out past that limit on
  the line it is due on (`BurstLimits.UsersExactly`): behind users without modes, one with op or voice due with 501 or 502
  bytes in the buffer, or with both due with 500 to 502 (`BurstLimits.OverlongSent`; `BurstLimits.OverlongHappens` is one
  such channel).
- `newline` is set once, before all channels. Behind a channel with bans it is 0, and the next channel's first user is
  printed with a comma in front. A receiver then reads that user's numeric without its last digit and drops its modes, so
  the users of a channel with one user are right exactly when it has the numeric 0 and no modes
  (`BurstLimits.StaleNewline`). The round trip is therefore about a channel that starts with `newline` at 1.
- A `+k` without its key leaves a channel flagged as keyed without a key, which the next burst would compare against
  (`Membership.KeyMissing`). That happens exactly when the arguments run out behind a `+k` while no key is stored, neither
  the channel's own nor one from an earlier `+k` of the message (`Membership.ArgsGrow`, `Membership.BurstGrows`);
  no other message does it (`Membership.KeysKept`).
- A mask without `@` never gets the wildcard nick treatment, so it prints as itself only when it is a plain nick or `*`;
  a host that was cut prints as itself only when what is left of it is neither an address nor marked for hidden hosts
  (`Bans.RoundTrip`).
- A host of more than 63 characters is cut without the hidden-host test. The shortcut flag then loses matches exactly when
  what is left of the host, with the star in front, matches the hidden host of some account of at most 15 characters
  (`BanLists.HiddenFlagExact`; `BanLists.TruncatedHostLosesMatch` is one such mask).
- The overlap test is textual: a ban that also matches by address can be dropped as enclosed by one that does not, and
  its users are no longer banned (`BanLists.AddressBanLost`). `BanLists.OverlapExact` says exactly when enclosing is
  harmless.
- `mmatch` never claims too much. It misses nothing exactly when every `?` of the first mask has a star on both sides of
  it or on neither, among the wildcards around it; where items may be left over at the end of the mask, that end counts as
  a star (`MaskPatterns.Match2PatternsSound`, `MaskCompleteness.CompleteExactly`). So `*?` and `a*?b` are incomplete, and
  `a*?*b` is complete (`MaskCompleteness.BetweenStars`).
- Printed durations read back for 0 to ten years and for -1 only; every other number reads as the error code
  (`Duration.RoundTrip`).
- Undoing a G-line transaction leaves a logged G-line switched on exactly when it was in force and its time of last
  change was unknown (`Glines.UndoneOff`; `Glines.UndoLeavesOn` is such a list).
- The network folds a backslash and a bar together, and only a backslash makes the wildcard behind it stand for itself. So
  two G-lines that count as equal need not match the same users: they do exactly when the same wildcards stand for
  themselves in both (`GlineMatching.EqualGlinesMatch`; `GlineMatching.EscapesDiffer` is such a pair).
- The editor refuses to move a block of two or more lines down to the end of the text (`EditorPlaces.MovesAt`).
- The editor opens only the first sixteen lines of a file (`LineEditor.HedOpen`, a method).

## Model

| member | source | states |
|---|---|---|
| `UserHash.PlacedStores` | channel/chanuserhash.c:63-83 | writing a word into a free slot of the user's probe path keeps the table storing exactly its users, plus the new one |
| `UserHash.RemovedStores` | channel/channel.c:172-174 | overwriting a slot with `nouser` removes that user and nobody else, although no tombstone is left |
| `UserHash.StrippedStores` | channel/channelhandlers.c:61-65 | masking the mode bits of all words keeps the same users, with no modes |
| `UserHash.Occupancy` | channel/chanuserhash.c:63-110 | the number of used slots is the number of users |
| `UserHash.NotFound` | channel/chanuserhash.c:92-110 | a search that went along the whole path without meeting the numeric proves it is not a member |
| `UserHash.HomeIsFree` | channel/chanuserhash.c:25-53 | in a table larger than every numeric an absent user's first slot is free |
| `UserHash.NextSize` | channel/chanuserhash.c:22-33 | the first size a rehash tries is larger than the old one: by one in a table that is badly used or of size 0 or 1, and otherwise odd and one and a half times the old |
| `UserHash.ChanUserHash.Lookup` | channel/chanuserhash.c:92-110 | finds a numeric exactly when it is a member, at a slot holding its current modes |
| `UserHash.ChanUserHash.FirstFree` | channel/chanuserhash.c:63-90 | the first free slot of the bounded probe path, or none when the path is full |
| `UserHash.ChanUserHash.Add` | channel/chanuserhash.c:63-90 | adds the user with its modes; fails exactly when its path has no free slot, and never in a table larger than every numeric |
| `UserHash.ChanUserHash.Remove` | channel/channel.c:168-174 | exactly the user of that slot is gone |
| `UserHash.ChanUserHash.StripModes` | channel/channelhandlers.c:60-65 | every user keeps its place and loses its modes |
| `UserHash.CopyInto` | channel/chanuserhash.c:36-50 | one pass copies every user, or reports that one does not fit |
| `UserHash.Rehash` | channel/chanuserhash.c:17-57 | the retry loop ends, the table is larger, users and modes are unchanged |
| `UserHash.AddGrowing` | channel/channel.c:137-142 | the add-or-rehash loop ends, with exactly the one user added |
| `IrcStrings.StrCmpZero` | lib/irc_string.c:158-168 | `ircd_strcmp` is 0 exactly on texts equal up to case |
| `IrcStrings.StrCmpTransitive` | lib/irc_string.c:158-168 | it is a transitive order |
| `IrcStrings.StrCmpReverse` | lib/irc_string.c:158-168 | swapping the arguments swaps the answer |
| `IrcStrings.FoldOnly` | lib/irc_string.c:481-565 | matching does not depend on the case of the string |
| `MaskMatch.CheckItems` | lib/irc_string.c:487-502 | checking the items up to the next star decides a mismatch, a match at the end, or that no later start can fit either |
| `MaskMatch.NotBefore` | lib/irc_string.c:525-529 | behind a star, jumping to the next occurrence of the literal loses no match |
| `MaskMatch.FallBack` | lib/irc_string.c:542-562 | after a failed chunk the next try starts one behind the last, and nothing in between is lost |
| `MaskMatch.TakeFirst` | lib/irc_string.c:533-538 | taking a chunk at its first possible place loses nothing for what follows the next star |
| `MaskMatch.MatchMask` | lib/irc_string.c:481-565 | the matcher with one fall-back place terminates and answers exactly the declarative meaning of the mask |
| `MaskPatterns.NextStarReached` | lib/irc_string.c:371-378 | reaching the next star of the old mask at the first possible place loses nothing |
| `MaskPatterns.FallBackItem` | lib/irc_string.c:446-457 | where the items behind a star do not fit, the next try starts one item further on, and nothing is lost |
| `MaskPatterns.MMatch` | lib/irc_string.c:360-460 | the loop over two masks, with one place to fall back to, terminates and answers exactly whether the items of the old mask fit those of the new one, or those in front of a rest its last star takes |
| `MaskPatterns.Match2PatternsSound` | lib/irc_string.c:115-117 | when it says that the first mask encloses the second, the first matches whatever the second matches |
| `MaskPatterns.StarInFrontMisses` | lib/irc_string.c:380-392 | two masks of the same meaning, of which it does not see that the first encloses the second; where the mask ends open it does |
| `MaskCompleteness.Separate` | lib/irc_string.c:360-460 | wherever the loop says no of a mask of that shape, there is a string the second mask matches and the first does not |
| `MaskCompleteness.EnclosesExactly` | lib/irc_string.c:115-117 | for a mask each of whose `?` has a star on both sides or on neither, and any other mask: the test says yes exactly when the first matches whatever the second matches |
| `MaskCompleteness.SomeMissed` | lib/irc_string.c:380-392 | for every other mask there is one that it encloses and the test does not see |
| `MaskCompleteness.CompleteExactly` | lib/irc_string.c:115-117 | so the test misses nothing a mask encloses exactly when every `?` of it has a star on both sides or on neither |
| `MaskCompleteness.BetweenStars` | lib/irc_string.c:380-392 | a `?` between two stars does no harm, between a star and a literal it does |
| `Bans.MakeBan` | bans/bans.c:48-238 | the scanning parser computes the ban of the mask: flags and components |
| `Bans.RoundTripWithAt` | bans/bans.c:48-238 | for every mask with an `@`, whatever is cut of nick and user, parsing the printed ban gives the very same ban; a cut host comes back with what an uncut host of this text would have |
| `Bans.RoundTrip` | bans/bans.c:381-408 | over all masks: parsing the printed ban gives the very same ban exactly when the mask is `*`, is a plain nick, or has an `@` and a host that is not cut or, as cut, is neither an address nor marked; every other mask comes back as a different ban |
| `Bans.PrintedFits` | bans/bans.c:381-408 | the printed ban fits the static buffer, even for a cut mask |
| `BanLists.HiddenFlagComplete` | bans/bans.c:100-123 | for every mask whose host is not cut, a host pattern that can match a generated hidden host has the flag set |
| `BanLists.HidesExactly` | channel/channelbans.c:74-89 | which host components match the hidden host of some account of at most 15 characters |
| `BanLists.HiddenFlagExact` | bans/bans.c:76-124 | over all masks: the flag loses a match exactly when the host is cut and what is left of it matches the hidden host of some account of at most 15 characters |
| `BanLists.TruncatedHostLosesMatch` | bans/bans.c:79-99 | a host that is cut can match a hidden host without having the flag |
| `BanLists.OverlapSound` | bans/bans.c:244-344 | if one ban encloses another and that is harmless, every user the other matches it matches too |
| `BanLists.OverlapLoses` | bans/bans.c:244-344 | if it is not harmless, some user at an address, or behind the hidden host of an account of at most 15 characters, is matched by the enclosed ban alone |
| `BanLists.OverlapExact` | bans/bans.c:239-344 | for any bans makeban makes, one that banoverlap calls a superset is one exactly when the other is invalid, or its host is `*`, or it loses no address (the other has none, or its own mask covers it, or it matches every host) and no hidden host |
| `BanLists.SetBanBans` | channel/channelbans.c:139-173 | after setting a ban a user is banned exactly when it was before or the new ban matches, for every list and ban of which what is left out for being enclosed is harmless |
| `BanLists.SetMasksBan` | channel/channelbans.c:119-173 | on a list built from masks alone a user is banned exactly when one of the masks that were set matches it, if those that enclose each other do so harmlessly |
| `BanLists.TextMasksHarmless` | bans/bans.c:244-344 | masks without addresses whose hosts are not cut are harmless to each other |
| `BanLists.SetBanAntichain` | channel/channelbans.c:139-173 | no ban of the list encloses another |
| `BanLists.AddressBanLost` | bans/bans.c:244-344 | a concrete pair of masks for which the textual overlap test unbans an address |
| `BanLists.ChannelBans.NickBanned` | channel/channelbans.c:119-131 | the walk over the list answers whether some ban matches |
| `BanLists.SetIdentCovers` | channel/channelbans.c:32-36 | behind a set user name the real one does not matter |
| `BanLists.MaskCovers` | channel/channelbans.c:57-108 | where only what is visible counts, the real host and address of a user with a set or hidden host do not matter |
| `BanLists.UnmaskedShows` | channel/channelbans.c:57-108 | for everybody else that makes no difference, and a ban that matches what is visible matches anyway |
| `BanLists.HostsSeen` | channel/channelbans.c:57-117 | a ban on a host counts against the real host unless that is covered, against a set host, and, where its flag says so, against the host of the account whether or not it is used |
| `BanLists.NamesSeen` | channel/channelbans.c:32-49 | a ban on a user name or nick counts against who bears it |
| `BanLists.ChannelBans.RemoveEnclosed` | channel/channelbans.c:153-166 | exactly the bans the new one encloses leave the list, in order |
| `BanLists.ChannelBans.SetBan` | channel/channelbans.c:139-173 | the list becomes the specified one; the ban is added unless one in the list encloses it |
| `BanLists.ChannelBans.ClearBan` | channel/channelbans.c:182-212 | the first equal ban goes, and it reports whether there was one |
| `Burst.AddNicksJoins` | channel/channelhandlers.c:151-188 | adding listed users one by one joins those that exist and were not there; for a double mention the first counts |
| `Burst.ModesMerge` | channel/channelhandlers.c:84-131 | on a complete mode argument flags join, the smaller limit and the alphabetically first key win, and nothing else is consumed |
| `Burst.BurstMerges` | channel/channelhandlers.c:16-209 | a line of a burst, with at most one mode argument and any number of lists of users and bans behind it, merges what it says by timestamp |
| `Burst.BurstLeaves` | channel/channelhandlers.c:37-199 | what a line leaves of the channel it meets, field by field: an older timestamp clears modes, key, limit, bans and all op and voice before the line's own are taken, an equal one joins everything, a newer one brings bans, and users without modes; and without a channel before it opens one exactly when it brings a user who exists |
| `Burst.MergeStep` | channel/channelhandlers.c:37-190 | one more burst keeps the order-free description of all bursts so far |
| `Burst.MergeIsUnique` | channel/channelhandlers.c:37-190 | that description fixes timestamp, flags, limit, users with modes, and the key up to case |
| `Burst.NobodyOpens` | channel/channelhandlers.c:192-199 | a line that opens a channel is lost exactly when it brings no user who exists |
| `Burst.BurstsConverge` | channel/channelhandlers.c:37-190 | lines with disjoint users give the same channel in every order in which the first brings a user: oldest timestamp, flags, limit and key of the oldest, modes only from them |
| `Burst.InterleavedLines` | channel/channelhandlers.c:16-209 | an interleaving has exactly the servers' lines, and starts with the first line of one of them |
| `Burst.BurstMessagesConverge` | channel/channelhandlers.c:16-209 | the bursts of any number of servers for one channel, each over any number of lines of any wording: all interleavings of the lines end with the same channel |
| `Channels.ApplyFlagString` | lib/flags.c:15-66 | the loop over a mode string switches the letters it names |
| `Channels.ReadModes` | channel/channelhandlers.c:169-180 | the letters behind `:` up to the next comma, as op and voice |
| `Channels.Channel.AddNickToChannel` | channel/channel.c:116-150 | exactly an existing user who is not there yet is added, with its modes |
| `Channels.Channel.DelNickFromChannel` | channel/channel.c:152-179 | on the hash table: exactly that user goes, and the channel is to be deleted exactly when it was the last |
| `Channels.Channel.AddListed` | channel/channelhandlers.c:151-188 | the in-place walk over a list of numerics adds what the list says |
| `Channels.Channel.SetBanWords` | channel/channelhandlers.c:132-146 | every blank-separated ban is set in turn |
| `Channels.Channel.TakeModes` | channel/channelhandlers.c:84-131 | the in-place mode step, including giving up on a missing argument |
| `Channels.Channel.TakeArgs` | channel/channelhandlers.c:71-190 | the argument loop does what the arguments say |
| `Channels.Channel.TakeOver` | channel/channelhandlers.c:46-65 | an older timestamp clears modes, key, limit, bans and all op and voice, and no user |
| `Channels.HandleBurstMsg` | channel/channelhandlers.c:16-209 | the whole in-place handler, on table, ban list and fields, equals the burst specification, whose effect on every field is in `Burst.BurstLeaves`, and a channel left empty goes away |
| `Wire.NumericReadsBack` | lib/base64.c:40-56 | a numeric printed in base 64 reads back |
| `Wire.LettersMean` | channel/channelhandlers.c:166-176 | the letter o is op and the letter v is voice: as they are printed, as they are read, and as bits of the table's words |
| `Wire.CommaInFront` | channel/channelhandlers.c:151-168 | a lone user behind a comma reads as the user of the numeric without its last digit, without modes |
| `Wire.UsersRead` | channel/channel.c:361-384 | the users of a line, grouped by mode, read back with their modes |
| `Wire.SplitWords` | lib/splitline.c:14-56 | splitting a line gives its words and the rest |
| `Wire.LineSplits` | lib/splitline.c:14-56 | a burst line splits into exactly the arguments it was made of |
| `RoundTrips.PrintedFlagsSay` | lib/flags.c:73-88 | printed flags switch on exactly those flags and claim exactly the arguments that follow |
| `RoundTrips.LayoutSound` | channel/channel.c:357-395 | the wrapping keeps all users and bans in order, every line has a legal shape, and no line exceeds the buffer |
| `RoundTrips.BanWordsRead` | channel/channelhandlers.c:132-146 | a ban argument reads back as its bans |
| `RoundTrips.ReceiveFirst` | channel/channelhandlers.c:16-209 | a first line makes the channel with its modes, users and bans |
| `RoundTrips.ReceiveNext` | channel/channelhandlers.c:16-209 | a continuation line adds its users and bans and changes nothing else |
| `RoundTrips.NextIsBurst` | channel/channel.c:367-371 | the continuation lines sendchanburst prints are lines of a burst in the sense of the convergence theorem |
| `RoundTrips.CutLine` | irc/irc.c:386-421 | a line of more than 508 characters arrives with all its users, the last one with some of its modes missing |
| `RoundTrips.ReceiveLines` | channel/channelhandlers.c:16-209 | a receiver without the channel builds it from all lines |
| `BurstSender.GroupedWords` | channel/channel.c:361-365 | the four passes over the table pick every user once |
| `BurstSender.BansRebuild` | channel/channelbans.c:139-173 | setting the bans of a minimal list one after the other gives the list back, in reverse, if each prints as itself |
| `BurstSender.RebuiltExactly` | channel/channelbans.c:139-173 | and exactly then |
| `BurstSender.SetMasksSendable` | channel/channelbans.c:139-173 | what setban makes of blank-free masks is minimal and fits the lines, and each ban prints as itself exactly when its mask is one that comes back |
| `BurstSender.PutUser` | channel/channel.c:366-382 | one user is printed with the separators and mode letters the line needs, or starts a new line |
| `BurstSender.PutBan` | channel/channel.c:386-394 | one ban is printed, or starts a new line |
| `BurstSender.SendChanBurst` | channel/channel.c:355-395 | the printing loops with `bufpos`, `newmode` and `newline`, whatever `newline` is at the start, send the lines of the layout; it is left clear exactly behind bans |
| `BurstSender.ReceivedLine` | irc/irc.c:386-421 | all users of a line arrive, and all their modes exactly when the line has at most 508 characters |
| `BurstSender.BurstRoundTrip` | channel/channel.c:335-398 | for every channel with users and a minimal ban list, a receiver rebuilds timestamp, flags, limit and key; users and modes exactly when no line exceeds 508 characters; and the bans exactly when every ban prints as itself |
| `BurstSender.MasksRoundTrip` | channel/channel.c:335-398 | for a ban list that setban has made from masks that come back, and no line too long, the whole channel comes back |
| `BurstLimits.LongExactly` | channel/channel.c:366-394 | some line of a channel is too long exactly when some user overflows the line it is due on, and bans never make one so |
| `BurstLimits.UsersExactly` | channel/channel.c:335-398 | the receiver ends with the users and modes of the channel exactly when no user overflows the line it is due on |
| `BurstLimits.OverlongSent` | channel/channel.c:367-382 | for every table: when the first user with modes is due behind others with too many bytes in the buffer for its mode letters, 501 or 502 for op or voice and 500 to 502 for both, the receiver ends with other modes |
| `BurstLimits.OverlongHappens` | channel/channel.c:367-382 | a channel of fifty users and a name of 197 characters is one |
| `BurstLimits.StaleNewline` | channel/channel.c:346-393 | with `newline` left 0 the user of a channel with one user, whatever its modes and the bans, is read by its numeric without the last digit and without modes: the channel is lost if there is no such user, and its users are rebuilt exactly when the user has the numeric 0 and no modes |
| `Membership.UserAdded` | channel/channel.c:133-142 | adding the pointer to the nick and the numeric to the channel keeps them mirror images |
| `Membership.UserRemoved` | channel/channel.c:168-196 | removing both keeps them mirror images, also when the channel goes away |
| `Membership.SlotDeleted` | lib/array.c:54-58 | deleting a slot by moving the last item there removes exactly that item |
| `Membership.Network.CreateChannel` | channel/channel.c:214-247 | a new channel under its name, at an address no channel in use has |
| `Membership.Network.DelChannel` | channel/channel.c:199-212 | exactly that channel is gone from index and memory |
| `Membership.Network.AddNickToChannel` | channel/channel.c:116-150 | adds an existing absent user on both sides, and otherwise fails and changes nothing; the table itself is in `Channels.Channel.AddNickToChannel` |
| `Membership.Network.DelNickFromChannel` | channel/channel.c:152-197 | takes the user off, deletes a channel left empty, and on request removes the pointer from the user's array; the table itself is in `Channels.Channel.DelNickFromChannel` |
| `Membership.Network.LeaveChannels` | channel/channelhandlers.c:255-268 | walking the user's array while its channels are left, and perhaps freed, never follows a stale pointer and leaves it on no channel |
| `Membership.Network.HandleJoin` | channel/channelhandlers.c:212-309 | the join list, including `0`, does what the join specification says, and the mirror is kept |
| `Membership.Network.HandleCreate` | channel/channelhandlers.c:311-386 | the same for CREATE, whose sender is op |
| `Membership.Network.HandlePart` | channel/channelhandlers.c:388-447 | the same for PART |
| `Membership.Network.HandleKick` | channel/channelhandlers.c:449-495 | the same for KICK |
| `Membership.Network.HandleChanBurst` | channel/channelhandlers.c:16-209 | the same for a burst, unless the channel it meets is flagged as keyed without a key |
| `Membership.Network.HandleNewNick` | channel/channel.c:313-318 | a new user has an empty array |
| `Membership.Network.HandleLostNick` | channel/channel.c:320-327 | a user who quits is on no channel, and no empty channel is left |
| `Membership.Network.Run` | channel/channelhandlers.c:16-495 | over any run of messages in which no burst meets a channel flagged as keyed without a key, arrays and tables stay mirror images, no channel is empty, and the network is what the messages say |
| `Membership.NextName` | channel/channelhandlers.c:240-250 | the in-place comma scan yields the names of the list |
| `Membership.ModesAndKey` | channel/channelhandlers.c:84-131 | when a mode argument gives up, and what is then known of the key |
| `Membership.ArgsGrow` | channel/channelhandlers.c:71-190 | the argument loop takes nobody off, adds only users that exist, and ends with a key behind its flag exactly when, wherever the arguments run out behind a `+k`, a key is stored already |
| `Membership.BurstGrows` | channel/channelhandlers.c:37-199 | the same of the whole message: a newer burst takes no modes, an older one clears the key; and only a new channel can end empty |
| `Membership.KeyMissing` | channel/channelhandlers.c:114-119 | a concrete burst that leaves a channel keyed without a key |
| `Membership.JoinNamesMoves` | channel/channelhandlers.c:238-306 | after a JOIN the user is exactly on the channels behind the last `0` (and its old ones if there is none); nobody else moves or changes modes, and a timestamp that is set stays |
| `Membership.CreateNamesMoves` | channel/channelhandlers.c:333-382 | after a CREATE the user is on the named channels and its old ones; nobody else moves |
| `Membership.PartNamesMoves` | channel/channelhandlers.c:419-444 | after a PART the user is on its old channels except those named; nobody else moves |
| `Membership.BurstMoves` | channel/channelhandlers.c:16-209 | a burst takes nobody off any channel, adds only users that exist, and touches only its own channel |
| `Membership.EffectSound` | channel/channelhandlers.c:16-495 | every such message keeps each channel populated, with users that exist |
| `Membership.KeysKept` | channel/channelhandlers.c:16-495 | while every keyed channel has its key any message may come, and all still have it afterwards exactly unless it is a burst, not lost for want of users, that announces a key nobody has |
| `MessageEffects.JoinEffect` | channel/channelhandlers.c:212-309 | what a JOIN leaves of every channel: the user is on the ones named behind the last `0`, and without a `0` on its old ones, without modes where it has come; a channel it was alone on ends; one that begins has nobody else, no modes, no bans and the timestamp sent; a missing timestamp is set where the channel is named; all else stays |
| `MessageEffects.CreateEffect` | channel/channelhandlers.c:311-386 | the same for CREATE: where the user was not on the channel it is op, and a channel that begins has the timestamp sent |
| `MessageEffects.PartEffect` | channel/channelhandlers.c:388-447 | the same for PART: the user is off the channels named, and nothing else changes but that channels left empty end |
| `MessageEffects.KickEffect` | channel/channelhandlers.c:449-495 | a KICK takes the user named off the channel named and off no other, nobody else moves, and with too few arguments or an unknown user nothing happens |
| `MessageEffects.QuitEffect` | channel/channel.c:320-327 | a user who quits is off every channel, and nobody else moves |
| `MessageEffects.BurstEffect` | channel/channelhandlers.c:16-209 | a burst line leaves of its channel what `Burst.BurstLeaves` says, and every other channel alone |
| `MessageEffects.JoinNamesAt` | channel/channelhandlers.c:238-306 | going through the list of a JOIN name by name comes to that, whatever the order and repetitions of the names |
| `Scheduling.FireAgrees` | core/schedule.c:296-314 | updating a record before its callback keeps it in step with what was asked for, and the time it fires at is the next one asked for |
| `Scheduling.FireWorks` | core/schedule.c:259-324 | firing reduces what is left to do by the given time |
| `Scheduling.TopIsLeast` | core/schedule.c:262-262 | the front of a heap is due first |
| `Scheduling.SunkAll` | core/schedule.c:43-79 | what sinking an entry leaves behind |
| `Scheduling.FloatedOnce` | core/schedule.c:94-110 | one step of floating keeps the heap but for the floating entry |
| `Scheduling.Scheduler.Heapify` | core/schedule.c:43-79 | sinks an entry: same records, right back-pointers, order restored below it |
| `Scheduling.Scheduler.InsertSchedule` | core/schedule.c:81-111 | adds the record to the heap, with order and back-pointers kept |
| `Scheduling.Scheduler.ScheduleRemove` | core/schedule.c:113-156 | removes exactly the record at any index, with order and back-pointers kept |
| `Scheduling.Scheduler.TakeFirst` | core/schedule.c:264-271 | takes exactly the front record, also when it is the only one |
| `Scheduling.Scheduler.ScheduleRecurring` | core/schedule.c:158-200 | a fresh record with the asked-for plan; a count of 1 is a one-shot |
| `Scheduling.Scheduler.DeleteSchedule` | core/schedule.c:202-240 | marks exactly one matching record, the given one or the first, or none when none matches |
| `Scheduling.Scheduler.DeleteAllSchedules` | core/schedule.c:242-257 | the restarting scan ends; exactly the records with that callback are removed and freed, each once, and what they still had to do is called off |
| `Scheduling.Scheduler.Discard` | core/schedule.c:273-282 | a record marked deleted leaves the queue without firing, and one without a callback is dropped; no other may |
| `Scheduling.Scheduler.Requeue` | core/schedule.c:264-316 | the front record, which has a callback, is updated and back in the heap, and the firing is recorded |
| `Scheduling.Scheduler.Call` | core/schedule.c:318 | a callback performs its operations one after the other, and calls off only what they name |
| `Scheduling.Scheduler.RunFirst` | core/schedule.c:262-323 | one turn: the front record, due first, is cleared away if it is deleted, dropped if it has no callback, and otherwise fires, and its callback is called |
| `Scheduling.Scheduler.DoScheduledEvents` | core/schedule.c:259-324 | with callbacks that schedule and delete arbitrarily, even what is already due: it ends, nothing due is left, the queue has gone through turns of that kind and nothing else, only what was due has fired, all standing events have caught up, an event was dropped only if it has no callback and called off only if a callback of this run names it; so if none deletes anything every event with a callback stands; callbacks come in order of time if they add nothing that is already due |
| `Scheduling.NothingNamed` | core/schedule.c:259-324 | where no operation deletes anything, nothing that has a callback is called off or dropped |
| `Scheduling.AllCaughtUp` | core/schedule.c:259-324 | a queue with nothing due has fired everything asked for up to then |
| `Scheduling.FiresExactly` | core/schedule.c:180-200 | an event asked for `count` times that was not called off fires exactly that often, at first + k * interval |
| `Scheduling.KeptFired` | core/schedule.c:284-316 | the history and the queue agree after a firing |
| `ModuleManager.InverseExact` | core/modules.c:117-185 | a module is among the children of another exactly when the other is among its parents |
| `ModuleManager.FirstPass` | core/modules.c:117-164 | names, parents and child counts are read; it gives up exactly on too many modules or a parent not on an earlier line |
| `ModuleManager.Room` | core/modules.c:168-184 | the next child is written inside the array the first pass has sized |
| `ModuleManager.SecondPass` | core/modules.c:166-185 | every children array is the exact inverse of the parents, in file order |
| `ModuleManager.Modules.InitModuleDeps` | core/modules.c:103-187 | either the whole graph, consistent, or no records at all |
| `ModuleManager.Modules.GetIndex` | core/modules.c:290-300 | the index of a loaded module, or -1 |
| `ModuleManager.Modules.Insmod` | core/modules.c:227-288 | the loaded set stays closed under parents even on failure; it grows by no more than the module needs, and on success by all of it; where no dlopen fails exactly the modules that come are opened, each once; a loaded module or a name that is too long changes nothing |
| `ModuleManager.Modules.LoadParents` | core/modules.c:247-257 | loads the missing parents, or stops at the first that fails |
| `ModuleManager.Modules.Rmmod` | core/modules.c:327-379 | removes exactly the module and everything loaded that needs it, closing each once; the rest stays closed under parents |
| `ModuleManager.Modules.RemoveChildren` | core/modules.c:340-350 | afterwards nothing loaded needs the module, and only what needs it has gone |
| `ModuleManager.Modules.SetReloadMark` | core/modules.c:383-393 | marks exactly the loaded modules that need this one |
| `ModuleManager.Modules.PrepareReload` | core/modules.c:397-417 | marks exactly what removing the module would unload |
| `ModuleManager.Modules.ReloadMarked` | core/modules.c:423-431 | loads nothing beyond what was loaded before; if every load succeeds all marked modules are back, each opened once |
| `ModuleManager.Modules.SafeReload` | core/modules.c:433-446 | whatever fails, the module and all loaded that need it are closed, each once, before anything is opened, nothing beyond its needs is gained and nothing that does not need it is lost; if every dlopen succeeds all of them are opened again, each once, and what the module needs is loaded, also for a module that was not |
| `ModuleManager.Modules.Shutdown` | core/modules.c:460-484 | unloading the first module until none is left ends, and every loaded module is closed once |
| `ModuleManager.LoneModule` | core/modules.c:340-350 | with no child loaded, nothing loaded needs the module |
| `HookDispatch.InsertedInOrder` | core/hooks.c:52-68 | a new node goes behind its equals in priority, so each list is ordered by priority and first come first served |
| `HookDispatch.CollectGarbage` | core/hooks.c:126-150 | relinking leaves exactly the nodes that have a callback, in order |
| `HookDispatch.HookTable.RegisterPriorityHook` | core/hooks.c:40-71 | succeeds exactly for a callback the hook has not got, and puts it into the list by its priority, behind its equals |
| `HookDispatch.HookTable.DeregisterHook` | core/hooks.c:73-92 | succeeds exactly for a callback that is registered; the node stays |
| `HookDispatch.HookTable.MarkDirty` | core/hooks.c:118-124 | a hook is on the dirty list at most once |
| `HookDispatch.HookTable.CollectAll` | core/hooks.c:109-114 | only with no walk under way, every list is rid of its dead nodes and the dirty list is empty |
| `HookDispatch.HookTable.Walk` | core/hooks.c:101-106 | with callbacks that register, deregister and trigger in any nesting: no node is freed meanwhile, whatever stood registered at the start is called unless deregistered, the calls come in order of priority and then of registration, no registration is called twice, and each callback does what it does before the next is called |
| `HookDispatch.HookTable.CallNode` | core/hooks.c:103-104 | one call: the callback stands registered, comes later in the order than the one before, and does the next of what the walk's callbacks do |
| `HookDispatch.HookTable.RunCallback` | core/hooks.c:102-105 | after a callback the walk goes on from a node that is still in the list |
| `HookDispatch.HookTable.TriggerHook` | core/hooks.c:94-116 | an outermost trigger walks the hook and then the queue-end hook, in which everything standing registered at that moment is called unless deregistered; an inner one walks the hook alone; nodes are freed only at the end of an outermost walk, and then all dead ones are; nothing is ever called that does not stand registered at that moment |
| `HookDispatch.CallsActiveAfter` | core/hooks.c:101-106 | what one more event adds to that: a call of what stands registered, or no call |
| `HookDispatch.PendingEvolves` | core/hooks.c:102-105 | whatever a callback does, nothing still to come in the walk is skipped |
| `LineEditor.Splice` | helpmod2/hed.c:512-586 | linking one list into another at a place, for adding, deleting, clearing and pasting |
| `LineEditor.Unlink` | helpmod2/hed.c:536-552 | takes one node out of a list |
| `LineEditor.Editor.ClearClipboard` | helpmod2/hed.c:563-570 | the clipboard's lines go in front of the free ones; every buffer stays on exactly one list |
| `LineEditor.Editor.AddLine` | helpmod2/hed.c:512-534 | a free line goes into the text at the place or behind the last line; its assertions hold |
| `LineEditor.Editor.DelLine` | helpmod2/hed.c:536-552 | the line goes to the end of the clipboard |
| `LineEditor.Editor.Paste` | helpmod2/hed.c:572-586 | the clipboard goes into the text at the place |
| `LineEditor.Editor.GetLine` | helpmod2/hed.c:554-561 | the line at a place of the text |
| `LineEditor.Editor.HedCommand` | helpmod2/hed.c:162-426 | every command does what its specification says, for arbitrary line numbers, and keeps everything within the sixteen buffers |
| `LineEditor.Editor.HedInput` | helpmod2/hed.c:427-475 | a typed line goes where the state says, with the special treatment of the last line |
| `LineEditor.CommandedOk` | helpmod2/hed.c:162-426 | no command but joining loses or changes a line, and everything keeps fitting |
| `LineEditor.MovedFit` | helpmod2/hed.c:359-378 | moving permutes the text when the clipboard is empty, and otherwise adds the clipboard's old lines |
| `EditorPlaces.DeletesAt` | helpmod2/hed.c:300-310 | `d` takes exactly the lines named out of the text, to the end of the clipboard, in order; a bad range changes nothing but the error |
| `EditorPlaces.ChangesAt` | helpmod2/hed.c:289-299 | `c` takes one line out, and typing goes on in its place |
| `EditorPlaces.PastesAt` | helpmod2/hed.c:404-416 | `x` puts the clipboard in front of the line |
| `EditorPlaces.JoinsAt` | helpmod2/hed.c:325-343 | `j` puts the text of the second line behind that of the first, wherever it stands, and the second on the clipboard |
| `EditorPlaces.MovesAt` | helpmod2/hed.c:359-378 | `m` leaves the lines together, going up with the first and going down with the last of them at the target, with what the clipboard held in front, and all others in order around |
| `EditorPlaces.TypesAt` | helpmod2/hed.c:449-475 | a typed line stands at the current place when inserting and behind it when appending, with the special treatment of the last line; all others keep their order around it, and the current line goes on by one |
| `EditorPlaces.LooksOnly` | helpmod2/hed.c:162-426 | no other command touches the text or the clipboard, and one that is refused changes nothing but the error, except that a refused `q` forgets that there are changes |
| `EditorPlaces.LettersDo` | helpmod2/hed.c:263-416 | when typing begins, when the editor closes, and what `w` does |
| `LineEditor.SessionOk` | helpmod2/hed.c:162-481 | what holds between commands holds over every session |
| `LineEditor.RunSession` | helpmod2/hed.c:162-481 | in no session can an assertion of the editor fail |
| `LineEditor.HedOpen` | helpmod2/hed.c:27-88 | the text is the first sixteen lines of the file, the clipboard is empty |
| `Glines.RoundTrip` | glines/glines_formats.c:24-145 | parsing a printed G-line gives the same G-line, and a mask of up to 507 characters is never cut |
| `Glines.MadeParts` | glines/glines_formats.c:24-122 | what the parser can make of a host mask |
| `GlineMatching.FullMaskMatches` | glines/glines_formats.c:24-122 | the G-line of nick!user@host matches exactly who fits all three, the host being an address where it reads as one |
| `GlineMatching.UserMaskMatches` | glines/glines_formats.c:24-122 | user@host matches whatever the nick |
| `GlineMatching.NickMaskMatches` | glines/glines_formats.c:24-122 | nick!host matches whatever the user name |
| `GlineMatching.HostMaskMatches` | glines/glines_formats.c:24-122 | a text without `!` and `@` is a host or an address, whatever nick and user name |
| `Glines.EqualChain` | glines/glines.c:202-239 | G-line equality is an equivalence |
| `EqualMasks.EqualMatchExactly` | lib/irc_string.c:481-565 | masks that are equal up to case match the same strings exactly when the same wildcards stand for themselves in both |
| `GlineMatching.EqualGlinesMatch` | glines/glines.c:31-66 | two G-lines that glineequal takes for one match the same users and channels exactly when, in the parts that count, the same wildcards stand for themselves |
| `GlineMatching.EscapesDiffer` | glines/glines.c:31-58 | a pair of equal G-lines of which only one matches a certain user |
| `Glines.ScanThins` | glines/glines.c:78-92 | the walk of a search drops only entries past their lifetime, switches off only expired ones, and changes nothing else |
| `Glines.ScanFinds` | glines/glines.c:68-96 | it finds an equal entry exactly when one is left, which is off if it has expired, and keeps the list free of equal entries |
| `Glines.GlineBufAdd` | glines/glines_buf.c:28-55 | a transaction grows by the G-line of the mask, or stays as it is for a malformed one; from a mask of up to 507 characters it can be found again under its printed form |
| `Glines.GlineStore.FindGline` | glines/glines.c:68-96 | the in-place search does what the walk says |
| `Glines.GlineStore.WriteLog` | glines/glines_buf.c:455-551 | the log keeps unique ids, non-empty entries and right hit totals; the next slot takes the transaction, on top of what an earlier entry with the id held; that entry's slot is cleared, and all other slots stay |
| `Glines.GlineStore.CommitOne` | glines/glines_buf.c:327-363 | the in-place step is the specified one: an equal entry is switched as the G-line says, otherwise the G-line becomes an entry |
| `Glines.CommitMeans` | glines/glines_buf.c:327-363 | after all steps: every entry within its lifetime is there, and alone, switched in turn by the equal G-lines of the transaction, with the time of last change each switch gives, or left alone but for ageing when there is none; every G-line within its lifetime has an entry; and what is new is a G-line of the transaction, switched in turn by those behind it |
| `Glines.FateObeys` | glines/glines_buf.c:339-358 | the last equal G-line of the transaction decides whether the entry is on, unless it should go off and its last change is unknown |
| `Glines.GlineStore.Commit` | glines/glines_buf.c:308-371 | a transaction over the limits changes nothing; otherwise it is logged, and the list becomes what its steps make of it, in the meaning above |
| `Glines.UndoMeans` | glines/glines_buf.c:402-411 | undoing all G-lines of an entry: every entry of the list within its lifetime is there, switched off in turn by each equal G-line, with the time of last change that gives, all others left alone but for ageing, and nothing else is new |
| `Glines.UndoneOff` | glines/glines.c:114-128 | an undone G-line is still switched on exactly when before it was in force and its last change unknown |
| `Glines.UndoLeavesOn` | glines/glines.c:114-120 | a G-line with an unknown time of last change, committed and undone at once, is in force as before |
| `Glines.GlineStore.Undo` | glines/glines_buf.c:391-420 | it finds the id exactly when it is in the log; that slot alone is cleared, and the list becomes what undoing its G-lines makes of it, in the meaning above |
| `Glob.DoubleStar` | helpmod2/hgen.c:44-47 | a further star changes nothing |
| `Glob.MatchesEmpty` | helpmod2/hgen.c:65-71 | exactly patterns of stars match the empty string |
| `Glob.RStrChr` | helpmod2/hgen.c:22-30 | the first occurrence of a character up to case |
| `Glob.MatchAfterStar` | helpmod2/hgen.c:48-63 | jumping from one occurrence of the following literal to the next loses no match |
| `Glob.StrRegexp` | helpmod2/hgen.c:32-72 | accepts exactly the strings the pattern means, for every string and pattern, and terminates |
| `Decimal.ValueOfPrint` | helpmod2/hgen.c:81-132 | a printed number has that value |
| `Decimal.ScanPrinted` | helpmod2/hgen.c:134-179 | scanning a printed number behind blanks gives it back and stops behind it |
| `Duration.SplitTotal` | helpmod2/hgen.c:81-115 | the split into years, months, days, hours, minutes and seconds adds up |
| `Duration.SplitParts` | helpmod2/hgen.c:81-115 | a time put together from years of 365 days, months of 30, days, hours, minutes and seconds is split into exactly these |
| `Duration.UnitsRead` | helpmod2/hdef.h:11-17 | what a number with each unit letter behind it reads as, in seconds |
| `Duration.UnitsPrint` | helpmod2/hgen.c:81-132 | what a whole number of each unit prints as |
| `Duration.ReadPrintedFields` | helpmod2/hgen.c:134-179 | reading printed fields adds them up, and refuses exactly totals above ten years |
| `Duration.ReadStrTime` | helpmod2/hgen.c:134-179 | the reading loop computes the reading function |
| `Duration.RoundTrip` | helpmod2/hgen.c:81-179 | for every int but the smallest, reading the printed duration gives the number back exactly for 0 to ten years and -1; everything else reads as -1 |

## Left out

- Sockets, signals, dump files, SQL, command replies, statistics and message text: input and output around the state changes.
- Hooks fired by channel handlers: taken to do nothing to the channels; nested calls are modelled in the dispatcher itself.
- Topics, join and part reasons, ban setting times and allocation: not part of the states compared.
- The unsigned short `hashsize` of a user table: sizes are natural numbers, so a table can grow beyond 65535 slots in the model.
- The channel index (`chanindex`, its references and marks) and the capitalisation kept there: channels are keyed by folded name.
- Names cut at 200 characters: channel names in `membership.dfy` are taken as they come.
- `ipmask_parse`: a parameter; nothing is assumed of its answers, but for G-lines that they have at most 128 bits.
- `tolower` tables with signed characters: characters are bytes from 1 to 255, folded as the IRC table does.
- Bans in convergence: a newer burst adds its bans all the same, so ban lists depend on order and are not compared.
- Burst.BurstsConverge: every user is in one line only, a limit that comes with `l` is positive, and the first line brings a user who exists, since otherwise it is lost (`Burst.NobodyOpens`).
- BurstLimits.StaleNewline: with `newline` at 0 and more users the text is printed as modelled by BurstSender.SendChanBurst, but what a receiver makes of it, which no longer looks at whole numerics, is not worked out.
- Membership.Network.Run: a burst for a channel that is flagged as keyed without a key is excluded, since the source may then compare against a null pointer; Membership.KeysKept says when a message leaves such a channel.
- Membership.Network.HandleChanBurst: the channel part is the function Channels.HandleBurstMsg is proved to compute; in which order new pointers reach the nick arrays is not modelled, since the arrays are unordered.
- Membership.Network.HandleNewNick: the nick code announces a user only once.
- Scheduling.Scheduler.DoScheduledEvents: recurring intervals are positive, otherwise the loop need not end; finitely many callbacks of one run add anything; callbacks do not run the scheduler again; the counters for statistics are left out; the heap array's growth is a sequence.
- ModuleManager.Modules.InitModuleDeps: module names in the dependency file are distinct, at most 100 characters, free of the characters that are removed from names, and no module names itself; running it again while modules are loaded is not modelled. `dlopen` and the modules' own code are an oracle that does not call back.
- HookDispatch.HookTable.RegisterPriorityHook: the hook number HOOKMAX itself, which the bound check lets through, is never used; callbacks are not null. The callbacks' behaviour is an arbitrary finite tree of registrations, deregistrations and triggers.
- LineEditor.Editor.HedCommand: the parsing of a command line into a letter and numbers; all letters and numbers are covered. Writing the file and the replies are left out. LineEditor.HedOpen reads lines of at most 382 characters that end in a newline.
- MaskCompleteness.CompleteExactly: masks of 64 and more characters, for which MaskCompleteness.EnclosesExactly needs a character that no literal of the first mask takes.
- Glines.GlineStore.Commit: which users and channels a transaction hits is a parameter; sending G-lines to the network, reasons and comments are left out; the branches for protocol versions the source does not select are left out.
- Glines.GlineStore.WriteLog: a transaction's own id is 0 or one that was handed out before.
- Decimal text longer than a C long, and the reading of it, are not modelled beyond what the callers accept.
- `core/nsmalloc.c`, `helpmod2/helpmod_alias.c`, chanfix scoring, control and chanserv commands, cryptography, PCRE, GeoIP and Lua: not modelled.
