# Control plane verification

Dafny models of the hard logic of the control plane in `app/control/src`, with proofs of what
that logic is relied on for. The control plane lets a household use region-locked DNS: it
keeps an allowlist of addresses that a kernel set enforces, reads verification codes out of
forwarded mail, registers members with passkeys, and notifies devices.

`dafny verify dfyconfig.toml` checks the whole project.

| file | what it is about |
|---|---|
| `AuthResults.dfy` | Reading `Authentication-Results` (section 2.2 of RFC 8601): the character transducer `strip_cfws`, the segment and token reader, composition |
| `HeaderText.dfy` | What normalising makes of any header, part by part |
| `Comments.dfy` | Which text inside a comment can change the result, exactly, and how that differs from comments as section 3.2.2 of RFC 5322 has them |
| `QuotedStrings.dfy` | Which text inside a quoted string can change the result, exactly |
| `Domains.dfy` | The dot-boundary test behind `is_trusted`, `of_sender` and `brand_link_allowed`, against label suffixes |
| `CodeExtractor.dfy` | `extract_code` against "the closest qualifying digit run" |
| `Allowlist.dfy`, `Renewal.dfy` | The allowlist table, its ownership and quota over every history, and the renewal and sync loops against the clock |
| `NftFile.dfy`, `Decimal.dfy` | The boot-time file of the kernel set: writing it, importing it, and the round trip down to the characters |
| `Registration.dfy`, `RegistrationSafety.dfy`, `RegistrationEffects.dfy`, `Panel.dfy`, `Otp.dfy` | Joining, registering passkeys, logging in and one-time codes: handlers as steps, sessions with their history, what each step does exactly, the server as a class that keeps its own history, proved to be a run |
| `Ownership.dfy` | The accounts of registration meet what the allowlist assumes of accounts |
| `SessionStore.dfy` | The bounded session store against an unbounded last-write map |
| `DnsWindow.dfy`, `AuditTail.dfy` | The capped query window against the full log, and the offset machine that follows the audit file |
| `CivilDate.dfy` | `days_from_civil` against day-by-day counting, and timestamps (section 5.6 of RFC 3339) |
| `RateLimit.dfy` | The fixed-window limiter over sliding intervals |
| `FanOut.dfy` | The push task pool: every interleaving of the feeding loop, the tasks and the deadline |
| `Text.dfy`, `Sets.dfy` | Shared lemmas on strings, cutting, trimming and set sizes |

Each part that the source updates in place is a class whose methods are proved equal to a
function on its state (`Snapshot`, `Rows`, `Place`); the histories are then sequences of
those functions' steps, and the main results hold for every history. `Panel.Server` carries
its history along, and every call is proved to extend a run.

## What turned out different from the documentation

- The comment on `strip_cfws` (`app/control/src/mail.rs:97-105`) says that nothing left inside
  quotes can open a segment or a token. The code removes four white-space characters, while
  the tokens are cut at every Unicode white space, so quoted text can change the result:
  `QuotedStrings.VerticalTabSurvivesQuotes` gives a header. `QuotedStrings.HarmlessMeans` is the
  exact condition: text makes no difference anywhere if and only if no white space that
  survives in it is followed by one of the two properties.
- The comment on `strip_cfws` (`app/control/src/mail.rs:92-96`) says that a comment's text is
  free and reads as one blank. Section 3.2.2 of RFC 5322 lets such text escape a parenthesis;
  the code honours a backslash only inside quotes (`app/control/src/mail.rs:119`), so the
  escaped parenthesis closes the comment and the text behind it is read.
  `Comments.EscapedParenthesisEndsTheComment` gives a header. `Comments.SwallowedExactly` and
  `Comments.QuietExactly` are the exact conditions, for every text: when the normalised header,
  and when the verdicts, cannot tell it from an empty comment.
- The comment on `read_new` (`app/control/src/dnslog.rs:164-167`) promises that a half-written
  line waits for the next poll. A line that is not UTF-8, a half-written one included, makes
  the reading fail after earlier lines were recorded, and they are recorded again at every
  later poll. `AuditTail.HandsOverCompleteLines` says exactly when each line is handed over once.
- The limiter's key map stays within `global` keys only if a key may be admitted at all: with
  a per-key limit of zero every refused key is still stored. `RateLimit.MapBound` is the exact
  condition; the configured limiter (30 per key, 200 in all) meets it.
- `parse_rfc3339_utc` checks days only up to 31: a day past the end of a month counts on into
  the next (`CivilDate.PastMonthEndCountsOn`). The order theorem is therefore stated for
  timestamps of real calendar days.

## Model

| member | source | states |
|---|---|---|
| AuthResults.StripCfws | app/control/src/mail.rs:107-137 | The three-variable pass over the characters computes the transducer `Strip` the theorems below are about |
| AuthResults.StripIdempotent | app/control/src/mail.rs:106-137 | Normalising a normalised header changes nothing, for every string |
| HeaderText.StripMeans | app/control/src/mail.rs:90-137 | What normalising makes of a header, part by part: a comment becomes one blank, quotes stay, quoted text loses semicolons and four white-space characters and every escaped character becomes an underscore, a stray closing parenthesis goes, every other character stays; a comment or quoted string that never ends is read to the end |
| HeaderText.HeaderSplits | app/control/src/mail.rs:107-137 | Every text splits into such parts, so the above says what normalising makes of any text |
| Comments.SwallowedExactly | app/control/src/mail.rs:92-131 | For every text and nesting depth: it can stand for the empty text of a comment in every header without changing the normalised header if and only if it is `Swallowed`: read from inside the comment it writes nothing, so one closing parenthesis too many is followed by further ones only |
| Comments.CommentReadsAsBlank | app/control/src/mail.rs:92-96 | Outside quotes and comments, a comment with swallowed text reads as one blank and the rest as if it stood alone |
| Comments.CommentTextIsInvisible | app/control/src/mail.rs:92-131 | Replacing swallowed text by other swallowed text, at any nesting depth, changes neither the normalised header nor the verdicts |
| Comments.BalancedIsSwallowed | app/control/src/mail.rs:92-96 | Text with balanced parentheses is swallowed, at any nesting depth |
| Comments.CommentTextIsBalanced | app/control/src/mail.rs:92-96 | Comment text as the standard has it is balanced as long as it escapes no parenthesis |
| Comments.QuietExactly | app/control/src/mail.rs:107-175 | For every text: it can stand for the empty text of a comment in every header without changing the verdicts if and only if it is `Quiet`: no parenthesis stays open behind it and only white space stands outside all parentheses |
| Comments.SwallowedIsQuiet | app/control/src/mail.rs:92-131 | Swallowed text is quiet |
| Comments.CommentTextNeverChangesTheVerdicts | app/control/src/mail.rs:107-175 | Replacing quiet text by other quiet text never changes the DKIM list or the DMARC domain |
| Comments.EscapedParenthesisEndsTheComment | app/control/src/mail.rs:116-131 | Comment text by the standard with an escaped parenthesis: a header whose check failed reads a passing domain out of the comment, which the same header with an empty comment does not have |
| QuotedStrings.QuotedTextIsSolid | app/control/src/mail.rs:97-131 | Text inside quotes leaves the scanner inside the same quotes, and its output holds no separator if and only if every unescaped white space is one of the four the code removes |
| QuotedStrings.HarmlessMeans | app/control/src/mail.rs:97-183 | For every quoted text: it can stand for the empty one in every header, wherever a quoted string may stand, if and only if no surviving white space in it is followed by `header.d=` or `header.from=` |
| QuotedStrings.SolidIsHarmless | app/control/src/mail.rs:97-131 | Text whose unescaped white space is among the four characters the code removes is harmless |
| QuotedStrings.VerticalTabSurvivesQuotes | app/control/src/mail.rs:97-175 | A header with a quoted vertical tab, meeting every other condition, reads a domain out of the quotes that the same header with empty quotes does not have |
| QuotedStrings.QuotedTextNeverChangesTheVerdicts | app/control/src/mail.rs:107-183 | Replacing harmless text of a quoted string by other harmless text, on a token that is neither the verdict nor a `header.d=` or `header.from=` property, never changes the result, whatever surrounds it |
| AuthResults.DomainValueMeans | app/control/src/mail.rs:186-195 | The domain is what stands between the leading quotation marks and the trailing dots of the longest run of domain characters after them; nothing there means none |
| AuthResults.DomainCutExists | app/control/src/mail.rs:186-195 | Every value can be cut that way |
| AuthResults.ParseAuthResults | app/control/src/mail.rs:155-175 | The loop over segments computes `Parse` |
| AuthResults.PassMeans | app/control/src/mail.rs:139-146 | A token passes for a mechanism (a name without `/` and `=`) if and only if it is the name and `=pass`, or the name, `/`, a version without `=`, and `=pass` |
| AuthResults.ListedMeans | app/control/src/mail.rs:155-184 | For every header: a domain is listed if and only if some segment of the normalised lower-cased header begins with a passing DKIM token and its first token beginning with `header.d=` names that domain |
| AuthResults.DmarcReadMeans | app/control/src/mail.rs:155-184 | For every header: the DMARC domain is the one named by the first segment that begins with a passing DMARC token and whose first token beginning with `header.from=` names one |
| AuthResults.AuthservMeans | app/control/src/mail.rs:82-88 | A header is ours if and only if it begins, after white space, with our name up to ASCII case, and white space, a semicolon or the end follows |
| AuthResults.DkimMeans | app/control/src/mail.rs:155-170 | The DKIM list holds each domain once, and exactly those that reading some segment by itself gives; `ListedMeans` says which these are |
| AuthResults.DmarcMeans | app/control/src/mail.rs:171-174 | The DMARC domain is that of the first segment that gives one when read by itself, and absent exactly when none does; `DmarcReadMeans` says which that is |
| AuthResults.CollectConcat | app/control/src/mail.rs:155-175 | Collecting two lists of segments is collecting each and merging: the first list, then the second's new domains; the first DMARC domain wins |
| AuthResults.ParseComposes | app/control/src/mail.rs:155-175 | A header cut at a semicolon outside quotes and comments reads as its two halves, merged |
| AuthResults.EarlyNormalisationIsInvisible | app/control/src/mail.rs:215-223 | Normalising before choosing changes nothing that is read later: if the normalised header begins with our own name, what is read is what the raw header says, and in every other case, or without a header, nothing |
| Domains.WithinIsLabelSuffix | app/control/src/mail.rs:62-68 | "Equal, or ends with a dot and x" holds if and only if the labels of `x` are a suffix of the labels of `d` |
| Domains.TrustMeans | app/control/src/mail.rs:62-69 | A sender is trusted if and only if the header vouches for a domain whose labels end in those of an allowed domain |
| Domains.OfSenderMeans | app/control/src/platforms.rs:149-170 | `of_sender` names the first rule in key order that accepts the address by whole address or by labels, and none exactly when no rule does |
| Domains.BrandLinkMeans | app/control/src/main.rs:1895-1910 | For every verdict, link and list: a link keeps the brand if and only if the mail is verified, the link parses as https without credentials and with a host whose first and last labels are not empty, and the host lies in an allowed domain by labels |
| CodeExtractor.HintsDoNotOverlap | app/control/src/mail.rs:284-287 | No hint word overlaps itself |
| CodeExtractor.HintsAreTheWords | app/control/src/mail.rs:284-287 | The hints are exactly these fifteen words |
| CodeExtractor.UnitsMean | app/control/src/mail.rs:290-290 | A unit stands behind a number if and only if one of these nine texts does |
| Text.WhiteMeans | app/control/src/mail.rs:346-350 | White space is the twenty-five characters of the Unicode property, which trimming and cutting go by |
| Text.LowerMeans | app/control/src/mail.rs:87-87 | Lower-casing takes each ASCII capital to its small form and nothing else |
| Text.EndsMeans | app/control/src/mail.rs:351-354 | A text ends with another if and only if something followed by that one makes it |
| Text.OffsetMeans | app/control/src/mail.rs:356-360 | The distance measure counts bytes of UTF-8 (section 3 of RFC 3629) |
| CodeExtractor.Fits | app/control/src/mail.rs:315-354 | A run of digits passes the filters of the scan exactly if it has 4 to 8 digits and none of the listed neighbours |
| CodeExtractor.ScanHints | app/control/src/mail.rs:297-303 | The scan that jumps past each match still finds every occurrence of every hint |
| CodeExtractor.NearestHint | app/control/src/mail.rs:356-360 | The distance found is reached by some hint and undercut by none |
| CodeExtractor.BestIsUnique | app/control/src/mail.rs:293-379 | The declarative answer is unique: run and distance are determined |
| CodeExtractor.ExtractLower | app/control/src/mail.rs:308-379 | The one-pass scan returns the text of the best candidate: nearest to any hint, leftmost on ties; and none exactly when no maximal run of 4 to 8 digits passes all filters |
| CodeExtractor.ExtractCode | app/control/src/mail.rs:293-379 | The same for the lower-cased mail text |
| Allowlist.AllowDb.UpsertOwnedOn | app/control/src/db.rs:916-938 | New row, rewritten own row (admin: any row, ownerless ones adopted), or refusal without effect |
| Allowlist.AllowDb.AllowAddAtomic | app/control/src/db.rs:981-1021 | Account check, quota for new addresses and the write happen as one step with four outcomes |
| Allowlist.AddAnswers | app/control/src/db.rs:981-1021 | For every database, caller and grant: `UserGone` if and only if the account is missing; `QuotaFull` with both numbers if and only if it exists, the address is new and the owner holds at least `max_per_user` rows; `NotOwner` if and only if it exists, the row is somebody else's or nobody's and the caller is no admin; `Added` in every other case |
| Allowlist.AddLeaves | app/control/src/db.rs:905-1021 | Only `Added` changes anything: the row then has the expiry and days granted, an open notice, the name given or else the one it had, and its owner; every other row stays as it was |
| Allowlist.ImportLeaves | app/control/src/db.rs:880-902 | An import writes the row's expiry, days and name, never takes a row over and never gives one an owner |
| Allowlist.AllowDb.RenewAllow | app/control/src/db.rs:851-869 | Extends by the row's own number of days and clears the notice; nothing for a missing row |
| Allowlist.AllowDb.ClaimExpiryNotice | app/control/src/db.rs:2045-2052 | The notice is claimed exactly when nobody has |
| Allowlist.AllowDb.PurgeExpired | app/control/src/db.rs:872-875 | Removes exactly the rows whose expiry is not in the future |
| Allowlist.AllowDb.RemoveUser | app/control/src/db.rs:595-615 | Removes the account and exactly the rows under its label |
| Allowlist.AllowDb.RenewActive | app/control/src/main.rs:3199-3239 | One turn of the loop renews exactly the rows close to expiry with queries, and marks the idle owned ones once |
| Allowlist.AllowDb.Sync | app/control/src/nft.rs:14-41 | Purges expired rows, then the kernel set holds exactly the rest, each with its own expiry |
| Allowlist.OwnersAlwaysExist | app/control/src/db.rs:595-615 | In every reachable state every owned row belongs to an existing account, however deletions and additions interleave |
| Allowlist.OwnerNeverChanges | app/control/src/db.rs:916-938 | In every run an owned row keeps its owner for as long as it stays, whoever writes it, admins included |
| Allowlist.OthersRowsAreSafe | app/control/src/db.rs:905-938 | A caller without admin powers leaves every row of somebody else as it is and is told so |
| Allowlist.QuotaHolds | app/control/src/db.rs:981-1021 | In every reachable state an owner holds at most `max_per_user` rows plus the ones it adopted |
| Renewal.RequestedGrantMeans | app/control/src/main.rs:1374-1375 | What `allow_add` grants: the days asked for, or the configured ones, if between 1 and 30, else the nearer of the two; from now on, in days of 86400 seconds |
| Renewal.TickMeans | app/control/src/main.rs:3199-3239 | A tick renews exactly the rows in use with at most a day left: they expire their own number of days after the tick, with the time noted and the notice open again; an idle owned row with an account is noted as told once; every other row stays as it is |
| Renewal.TickKeepsKeys | app/control/src/main.rs:3199-3239 | A tick takes no row out, adds none and leaves the kernel set alone |
| Renewal.DaysOfLastGrant | app/control/src/db.rs:885-938 | In every run a row's number of days is that of its last grant or import, and it has been in the table since |
| Renewal.RenewedForItsDays | app/control/src/main.rs:3199-3239 | In every run, after a tick at `t` a row in use that had at most a day left expires exactly the days of its last grant or import after `t`, noted as renewed at `t` and with an open notice |
| Renewal.StaysUntilExpiry | app/control/src/main.rs:3186-3239 | In every run a row that is neither removed nor granted anew stays in the table until the expiry it had, queried or not, and in the kernel set from the first sync on |
| Renewal.GrantLasts | app/control/src/main.rs:1374-1400 | So an address `allow_add` has granted stays for the whole of the days granted |
| Renewal.RenewalLasts | app/control/src/main.rs:3199-3239 | And one a tick has renewed stays for its number of days from the tick on |
| Renewal.OtherStepsMean | app/control/src/main.rs:1415-1484 | Besides grants and ticks nothing changes a row but its removal (by hand, with its owner's account, or expired) and its name; only a sync changes the kernel set, to exactly the rows left, each with its expiry |
| Renewal.RemovedIsGone | app/control/src/main.rs:1415-1452 | In every run an address removed by hand stays out of the table until it is granted again, and out of the kernel set from the next sync on |
| Renewal.TickSeesQueries | app/control/src/main.rs:3216-3221 | A tick takes an address for active if and only if the full query log has an entry in the last 1800 seconds |
| Renewal.InUseNeverDropsOut | app/control/src/main.rs:3186-3239 | If renewal gap plus sync gap stays below a day, a granted address left alone and active at every tick is unexpired at every later event, and in the kernel set with time left from the first sync on |
| Renewal.QueriedNeverDropsOut | app/control/src/main.rs:3186-3239 | The same over one run of allowlist steps and window events, where each tick asks the window: queried in the last 1800 seconds at every tick, by the full log, is enough |
| Renewal.SilentIsGone | app/control/src/main.rs:3590-3609 | And an address not queried in the last 1800 seconds at any tick, and granted by nobody, is in neither the table nor the kernel set from the first sync at or past its expiry on |
| Renewal.IdleIsNeverExtended | app/control/src/main.rs:3216-3221 | Without queries at any tick the row keeps its expiry and the kernel never waits longer |
| Renewal.IdleIsGoneAfterExpiry | app/control/src/main.rs:3590-3609 | From the first sync at or past its expiry on, an idle address is in neither the table nor the kernel set |
| Decimal.ValueDec | app/control/src/nft.rs:28-28 | Printing a number in decimal and reading it gives the number back |
| Decimal.ParseMeans | app/control/src/nft.rs:151-151 | A text parses to a number if and only if it is an optional sign and at least one digit, and the number fits 64 bits |
| NftFile.WritePersist | app/control/src/nft.rs:89-107 | Writes the comment header, the blank line, and one line per element of either set |
| NftFile.ReadDuration | app/control/src/nft.rs:149-159 | A printed number of seconds parses back to itself |
| NftFile.ParseDurationMeans | app/control/src/nft.rs:149-159 | A text is a duration of `n` seconds if and only if it is digits whose number fits 64 bits and one of `s`, `m`, `h`, `d`, worth 1, 60, 3600 and 86400 seconds |
| NftFile.ReadAnyUnit | app/control/src/nft.rs:149-159 | For every number up to the largest of 64 bits, printed and followed by one of the units: that many times the unit |
| NftFile.ReadWrittenLine | app/control/src/nft.rs:95-135 | A written line reads back as the element it was written for |
| NftFile.ReadAnyLine | app/control/src/nft.rs:120-141 | A line in the written shape with any word for a duration reads as its address with that duration, and with the configured days if it is none |
| NftFile.ReadBareLine | app/control/src/nft.rs:120-141 | And without a duration with the configured days |
| NftFile.BracedMeans | app/control/src/nft.rs:126-128 | The text read is what stands between the first opening brace and the first closing one behind it |
| NftFile.LineMeans | app/control/src/nft.rs:120-141 | For every line without white space around it: it gives an element if and only if it is no comment, speaks of adding an element, and the text in its braces begins with an address; the third word in there is the duration, if it is one |
| NftFile.LineLetters | app/control/src/nft.rs:95-107 | The text of a line of either set, letter by letter |
| NftFile.FileRoundTrip | app/control/src/nft.rs:89-159 | Reading the written file gives back exactly the elements of both sets, in order; header and blank line contribute nothing |
| NftFile.ImportLegacy | app/control/src/nft.rs:111-147 | Imports the readable lines into an empty table in order, and does nothing otherwise |
| NftFile.ImportMakesTable | app/control/src/nft.rs:137-141 | Importing distinct addresses makes a table of exactly those, with those seconds left and no owner |
| NftFile.SplitLive | app/control/src/nft.rs:20-34 | The loop of `sync` puts every unexpired row, with its remaining seconds, into the set of its family |
| NftFile.LiveMeans | app/control/src/nft.rs:20-34 | What is split are exactly the rows with time left, each with its seconds |
| NftFile.OnlyMeans | app/control/src/nft.rs:20-34 | Exactly the addresses with a colon go to the second set, the others to the first |
| NftFile.PersistThenImport | app/control/src/nft.rs:20-147 | Written at one time and imported at another, exactly the rows that were live come back, each with the seconds it had left |
| Panel.EveryServerIsSafe | app/control/src/main.rs:234-294 | Whatever calls a server has served: one account per address, passkeys only of accounts, an admin once there is an account, used invitations with their account; and whoever is logged in on a session is so by a passkey or by a code that very session showed, and has been since |
| Panel.Server.CreateAccount | app/control/src/db.rs:634-661 | Refused for a known id, username or address, otherwise adds exactly that account |
| Panel.Server.StoreCredential | app/control/src/db.rs:685-701 | Refused for a known credential, a missing account or a full one, otherwise adds exactly that credential |
| Panel.Server.MakeAccount | app/control/src/main.rs:793-832 | Token or invitation used up first, then the account, then the code dropped; what was used up stays so if the insert fails |
| Panel.Server.HandleSendCode | app/control/src/main.rs:443-515 | Extends the server's run by this call, and never leaves a verified mark that was not there |
| Panel.Server.HandleJoinVerify | app/control/src/main.rs:516-553 | Extends the run; succeeds exactly for the right unexpired join code with attempts left, and then the session holds the proof |
| Panel.Server.HandleJoinInvite | app/control/src/main.rs:562-594 | Extends the run; succeeds exactly for the link of an open invitation to an address without account, and then the session holds the proof |
| Panel.Server.Decide | app/control/src/main.rs:638-740 | The refusals of `register_start` in order, and what is pending otherwise |
| Panel.Server.HandleRegisterStart | app/control/src/main.rs:630-759 | Extends the run; succeeds exactly when a registration is then pending |
| Panel.Server.HandleRegisterFinish | app/control/src/main.rs:761-875 | Extends the run; success means one verified, new passkey for the account the session is then logged in to, failure leaves passkeys and sessions as they were |
| Panel.Server.HandleLoginAnyStart | app/control/src/main.rs:898-911 | Extends the run by the step that drops a pending registration and leaves a challenge |
| Panel.Server.HandleLoginAnyFinish | app/control/src/main.rs:913-962 | Extends the run; succeeds exactly with a challenge and a verified passkey of that account |
| Panel.Server.HandleLoginCodeVerify | app/control/src/main.rs:993-1033 | Extends the run; succeeds exactly for the right unexpired login code with attempts left of the address of that account; the login is then one by code and the code is gone; a refusal leaves the sessions as they were |
| Panel.Server.HandleLogout | app/control/src/main.rs:1035-1038 | Extends the run; the session is as if it had never been |
| Panel.Server.HandleInviteCreate | app/control/src/main.rs:2319-2346 | Extends the run; a link comes back exactly when an admin asked and the invitation is open and carries it |
| Panel.Server.HandleInviteRevoke | app/control/src/main.rs:2466-2487 | Extends the run; after an admin's call the invitation is not open |
| Panel.Server.HandleSetRole | app/control/src/main.rs:3005-3035 | Extends the run; only an admin session changes roles, and the last admin is never demoted |
| Panel.Server.HandlePasskeyDelete | app/control/src/main.rs:2751-2778 | Extends the run; nobody who has a passkey is left without, and no passkey of another account goes |
| Panel.Server.HandleMemberDelete | app/control/src/main.rs:3046-3093 | Extends the run; the account goes with all its passkeys, an admin remains, and the caller and everybody else stay |
| Panel.Server.InviteEmail | app/control/src/db.rs:1708-1720 | Opens the invitation without a link; a used one stays used |
| Panel.Server.SetInviteToken | app/control/src/db.rs:1820-1828 | Hangs a link on an open invitation only |
| Panel.Server.RevokeInvitedEmail | app/control/src/db.rs:1807-1814 | Closes an unused invitation and its link; a used one is left alone |
| Panel.Server.ConsumeBootstrap | app/control/src/db.rs:2305-2312 | Succeeds exactly once per token |
| Panel.Server.ConsumeInvitedEmail | app/control/src/db.rs:1782-1801 | Succeeds exactly on an open invitation and marks it used by that account |
| RegistrationSafety.FinishEffect | app/control/src/main.rs:761-875 | All that finishing can do to accounts and credentials: nothing new; or one new account whose token or invitation was used up, with one verified passkey or without any; or one verified passkey for the account already logged in |
| RegistrationSafety.NewAccountHasPasskey | app/control/src/main.rs:834-850 | In every run an account just created has a passkey if and only if the credential id was new |
| RegistrationSafety.ConsumedMeansCreated | app/control/src/main.rs:793-821 | Once the token or invitation could be used up the insert of the account cannot fail |
| RegistrationSafety.ViaMeans | app/control/src/main.rs:274-280 | In every run a session marked as logged in by passkey logged in by passkey as that very account in an earlier step (a verified passkey the account holds, or the one it was created with), and has stayed logged in so in every state since |
| RegistrationSafety.CodeMeans | app/control/src/main.rs:993-1033 | In every run a session marked as logged in by code showed, in an earlier step, the unexpired login code with attempts left that was mailed to the address of that very account, and has stayed logged in so since |
| RegistrationSafety.LoggedInMeans | app/control/src/main.rs:244-280 | In every run whoever is logged in on a session proved it on that session, by passkey or by code |
| RegistrationSafety.ProofMeans | app/control/src/main.rs:516-594 | In every run the proof a session holds comes from its own earlier redemption of a code or link for that address |
| RegistrationSafety.MarkMeans | app/control/src/db.rs:1914-1998 | In every run a join mark on an address comes from an earlier redemption at that time, with no new code, clearing or later proof in between |
| RegistrationSafety.PendingMeans | app/control/src/main.rs:630-759 | In every run a pending member registration was started by that session for that address, with its own proof and within the window, and has been pending since |
| RegistrationSafety.AdminActsNeedAPasskey | app/control/src/main.rs:284-294 | In every run changing roles, deleting members and opening or closing invitations has an effect only for an admin logged in by passkey on that session |
| RegistrationSafety.CreationIsFinish | app/control/src/main.rs:761-875 | Only finishing a registration creates an account, with the pending data of that anonymous session and something used up for it |
| RegistrationSafety.MemberNeedsProof | app/control/src/main.rs:516-759 | In every run a member account is created only by a session that started the registration for that address in an earlier step; it had redeemed a join code or link for it itself, and the address's last redemption was at most 900 seconds before that start, with no put or clear in between |
| RegistrationSafety.PasskeyGoesToOwner | app/control/src/main.rs:234-280 | In every run a passkey added to an existing account goes to the account logged in on that session, and to an admin account only while the session is logged in by passkey, through a passkey login of its own that has stood since |
| RegistrationSafety.KeepsAPasskey | app/control/src/main.rs:2745-2763 | In every run an account that has a passkey keeps at least one for as long as it exists |
| Ownership.LabelsAreUnique | app/control/src/db.rs:634-661 | In every reachable registration state account labels are unique |
| Ownership.NewAccountIsProper | app/control/src/db.rs:634-661 | Every account registration creates has an id and a label the allowlist does not know, as the ownership results assume |
| Ownership.OtherStepsOnlyRemove | app/control/src/main.rs:3046-3093 | Every other step keeps the accounts as the allowlist sees them or removes exactly the deleted one |
| Ownership.BothAreRuns | app/control/src/db.rs:595-661 | However registration steps and calls on allowlist rows interleave, each side sees a run of its own and both see the same accounts |
| Ownership.RowsBelongToAccounts | app/control/src/db.rs:595-615 | In every state both reach together, every owned row belongs to an account of the registration protocol |
| Ownership.QuotaHoldsForBoth | app/control/src/db.rs:981-1021 | And an owner holds at most `max_per_user` rows plus the ones it adopted |
| RegistrationSafety.CredentialKeepsOwner | app/control/src/db.rs:685-701 | No step moves a credential to another account |
| RegistrationSafety.AlwaysOk | app/control/src/main.rs:630-875 | The invariant behind the next three holds in every reachable state |
| RegistrationSafety.OneAccountPerAddress | app/control/src/db.rs:634-661 | At any time an address has at most one account |
| RegistrationSafety.InvitationNeverBurnt | app/control/src/db.rs:1782-1801 | A used invitation belongs to the account of its address, and an address with an unused one has no account |
| RegistrationSafety.AdminsComeFromBootstrap | app/control/src/main.rs:630-759 | Only the very first account is created as admin, and once there is an account there is always an admin |
| RegistrationSafety.OneFlowAtATime | app/control/src/main.rs:215-230 | In every run no session is in the middle of a registration and of a passkey login at once |
| RegistrationSafety.JoinFlowSucceeds | app/control/src/main.rs:516-875 | From every reachable state, an invited person with the right code who starts within the window and brings a new verified passkey ends up with the account, that passkey and a login, and the code is used up |
| RegistrationEffects.SetRoleMeans | app/control/src/main.rs:3005-3035 | An admin logged in by passkey gives exactly the requested role to exactly that account; the one request refused would leave nobody an admin |
| RegistrationEffects.DeleteMeans | app/control/src/main.rs:3046-3093 | Such an admin deletes any account but his own, the check for the last admin never stopping him; exactly that account goes, with exactly its passkeys and the invitation it used |
| RegistrationEffects.InviteMeans | app/control/src/main.rs:2319-2346 | Such an admin opens an invitation with that link for any address that has an at sign and no account; a used one stays used and gets no link; nothing else changes |
| RegistrationEffects.RevokeMeans | app/control/src/main.rs:2466-2487 | Such an admin closes any unused invitation and its link, and nothing else |
| RegistrationEffects.PasskeyDeleteMeans | app/control/src/main.rs:2751-2778 | Whoever is logged in removes exactly the passkey named, if it is his own and he has another; nothing happens otherwise |
| RegistrationEffects.SendMeans | app/control/src/main.rs:443-514 | A code is put if and only if the address is acceptable, due one for that purpose (an open invitation without account, or an account), and got none within 60 seconds: a fresh row good for 600 seconds |
| RegistrationEffects.AddressMeans | app/control/src/main.rs:367-369 | An acceptable address has an at sign, no white space, and at most 254 bytes in UTF-8 (section 3 of RFC 3629) |
| RegistrationEffects.JoinVerifyMeans | app/control/src/main.rs:516-553 | The session gets the proof if and only if the code is right, for joining, unexpired and tried wrongly fewer than five times; a right try marks the row, a wrong one costs an attempt, any other changes nothing |
| RegistrationEffects.JoinInviteMeans | app/control/src/main.rs:562-594 | The session gets the proof if and only if the link is that of an open invitation to an address without account; the row is then marked and holds no code that can be tried |
| RegistrationEffects.LoginCodeMeans | app/control/src/main.rs:993-1033 | The same for a login code: exact condition, the code used up and the session's unfinished flows dropped on success, the attempt counted otherwise |
| RegistrationEffects.LoginFinishMeans | app/control/src/main.rs:913-962 | In every reachable state: a passkey login succeeds if and only if a challenge stands and a verified passkey of that account answers it; the challenge is then used up |
| RegistrationEffects.ForgetMeans | app/control/src/main.rs:1035-1038 | Logging out changes that session only; an unknown session is nobody's and in the middle of nothing |
| RegistrationEffects.LoginStartMeans | app/control/src/main.rs:898-911 | Starting a passkey login drops a registration under way and leaves a challenge; the session stays who it was |
| RegistrationEffects.OneLoginPerChallenge | app/control/src/main.rs:898-962 | In every run a challenge is good for one login: each passkey login comes after a start of that same session, with no other such login of it since |
| RegistrationEffects.StartMeans | app/control/src/main.rs:630-759 | What a start leaves pending, for every state: a passkey for the account logged in (fewer than ten, an admin only by passkey), the first account with the token, a member account with the session's own proof of an invited address marked at most 900 seconds ago, and in every other case nothing |
| RegistrationEffects.FinishMeans | app/control/src/main.rs:761-875 | In every reachable state: finishing succeeds if and only if a passkey nobody has is verified and the pending account's token or invitation is open, or the session may add a passkey. A known passkey is refused only after the account has been made; every other refusal changes nothing |
| RegistrationEffects.FinishLeaves | app/control/src/main.rs:793-872 | What it then leaves: the account as pending, its token or invitation used up, its code gone, the passkey, and the session logged in with it; for an account that was there, the passkey alone |
| Otp.OtpTable.PutOtp | app/control/src/db.rs:1871-1884 | A new code replaces the old one, attempts and mark included |
| Otp.OtpTable.CheckOtp | app/control/src/db.rs:1914-1956 | One check: expired or other purpose, out of attempts, wrong (counted) or passed (marked), in that order |
| Otp.OtpTable.MarkEmailVerified | app/control/src/db.rs:1987-1998 | Marks the address verified without leaving a usable code, keeping the cooldown of an existing row |
| Otp.OtpTable.ClearOtp | app/control/src/db.rs:2000-2004 | Forgets the address |
| Otp.RightCodePasses | app/control/src/db.rs:1914-1956 | While a code stands: the four answers, each with its exact condition on purpose, time, wrong answers so far and code |
| Otp.NoCodeNeverPasses | app/control/src/db.rs:1914-1998 | Where no code stands, because none was put or a clear or a link's mark came since, every check answers Expired |
| Otp.CooldownMeans | app/control/src/db.rs:1890-1900 | In every run the wait before the next code is what is left of the cooldown since the last one was put, and zero if there was none or it was cleared; a link's mark neither starts nor ends it |
| Otp.NormMeans | app/control/src/db.rs:1871-1884 | An address is stored in lower case, without the white space around it |
| Otp.GuessesAreBounded | app/control/src/db.rs:1914-1956 | Between two puts at most `max_attempts` checks answer Wrong, and once that many have, none passes |
| Otp.RecentlyVerifiedMeans | app/control/src/db.rs:1963-1974 | Holds if and only if a check for that purpose passed or a link marked it within the window, and nothing put, cleared or proved the address since |
| SessionStore.BoundedMemoryStore.constructor | app/control/src/session_store.rs:58-63 | Starts empty with a limit of at least one |
| SessionStore.BoundedMemoryStore.InsertNew | app/control/src/session_store.rs:84-102 | Sweeps a full table, drops one soonest record if still full, inserts; the loop ends because records sit under their own ids |
| SessionStore.BoundedMemoryStore.Create | app/control/src/session_store.rs:127-141 | Redraws a colliding id until free, then inserts as above |
| SessionStore.BoundedMemoryStore.Save | app/control/src/session_store.rs:143-157 | Overwrites a known id without evicting, otherwise inserts |
| SessionStore.BoundedMemoryStore.SweepExpired | app/control/src/session_store.rs:75-81 | Keeps exactly the unexpired records and counts the others |
| SessionStore.BoundedMemoryStore.DeleteRecord | app/control/src/session_store.rs:179-187 | Removes that record only |
| SessionStore.BoundedMemoryStore.LoadRecord | app/control/src/session_store.rs:159-177 | Answers an unexpired record, and removes an expired one |
| SessionStore.AlwaysBounded | app/control/src/session_store.rs:75-102 | In every reachable state the size is at most `max` and every record sits under its own id |
| SessionStore.EvictsOnlyOneSoonest | app/control/src/session_store.rs:84-102 | One insertion drops at most one unexpired record, one with the least expiry, and only with `max` unexpired ones resident |
| SessionStore.InsertLeaves | app/control/src/session_store.rs:84-102 | What inserting a new id leaves: with room, everything else; in a full table the unexpired records, and if those alone fill it, all of them but one with the least expiry |
| SessionStore.ExpiredRecordsGo | app/control/src/session_store.rs:75-81 | Sweeping keeps exactly the unexpired records; loading an expired one removes exactly it and answers none |
| SessionStore.NoEvictionIsForgotten | app/control/src/session_store.rs:104-118 | Every eviction is reported once in a warning or still counted |
| SessionStore.WarningsAreRare | app/control/src/session_store.rs:104-118 | The first eviction is warned of, a later one if and only if the last warning before it is at least 60 seconds old |
| SessionStore.InsertKeepsLongLived | app/control/src/session_store.rs:8-11 | With fewer than `max` records expiring at or after T, an insertion drops no unexpired record expiring at or after T |
| SessionStore.LoadIsSound | app/control/src/session_store.rs:159-177 | In every run `load` returns only the last record written under that id, and only if unexpired |
| SessionStore.LoadRefinesUnbounded | app/control/src/session_store.rs:84-188 | With that headroom at every insertion the store answers like an unbounded last-write map, except possibly None for a record expiring before T |
| DnsWindow.Window.RecordQuery | app/control/src/dnslog.rs:55-63 | Appends with the next number and keeps the newest 200 |
| DnsWindow.Window.PruneOld | app/control/src/dnslog.rs:67-76 | Drops old entries from every queue, and empty queues |
| DnsWindow.Window.Stat | app/control/src/dnslog.rs:80-89 | Count and latest time of the queue's entries in the interval |
| DnsWindow.Window.Recent | app/control/src/dnslog.rs:92-102 | The queue's entries in the interval, newest first, up to the limit |
| DnsWindow.StatsMatchLog | app/control/src/dnslog.rs:55-89 | For any interleaving with nondecreasing times and any interval within the retention, the figures are those of the full log, capped at 200, with its true latest time |
| DnsWindow.RecentMatchesLog | app/control/src/dnslog.rs:92-102 | And the listing is the newest-first prefix of the full log |
| DnsWindow.ActivityMeansQuery | app/control/src/dnslog.rs:80-89 | A positive count means exactly that the log has a query in the interval |
| DnsWindow.NumbersAreDistinct | app/control/src/dnslog.rs:55-63 | Until the 64-bit counter wraps, numbers are distinct across all addresses and grow within one |
| DnsWindow.PruneLeaves | app/control/src/dnslog.rs:67-76 | A prune leaves no entry older than the retention and no empty queue, and drops nothing younger |
| AuditTail.Tail.ReadLines | app/control/src/dnslog.rs:168-189 | Hands over line by line what `ReadNew` says, stopping before an unfinished line or, with an error, at one that is not text |
| AuditTail.Tail.Poll | app/control/src/dnslog.rs:117-162 | One turn: start at the end on first sight, from zero after a rotation, then read, keep the old offset if that failed, then prune |
| AuditTail.ReadNewMeans | app/control/src/dnslog.rs:168-189 | What is read is exactly the stretch up to where the reading stopped, in complete lines, and no newline is left behind it unless the reading failed |
| AuditTail.ReadsToEnd | app/control/src/dnslog.rs:168-189 | A reading succeeds if and only if every line behind the offset, the unfinished one included, is text |
| AuditTail.SmoothMeans | app/control/src/dnslog.rs:168-189 | A reading gets to the end, or fails before handing over a line, if and only if all lines are text, or the next one is unfinished or not text |
| AuditTail.OneReading | app/control/src/dnslog.rs:168-189 | A stretch has only one reading as complete lines |
| AuditTail.HandsOverCompleteLines | app/control/src/dnslog.rs:117-189 | After any number of polls of a growing file, the lines handed over are exactly the complete lines from the start offset to the current one, each once and in order, if and only if no poll failed after handing over a line |
| AuditTail.TextIsSmooth | app/control/src/dnslog.rs:117-189 | None does while every line found behind the start offset is text |
| AuditTail.FailedPollRepeats | app/control/src/dnslog.rs:151-156 | A poll that fails hands its lines over again at the next one, whatever was appended |
| AuditTail.PollingTimesDoNotMatter | app/control/src/dnslog.rs:117-189 | Without such failures two ways of polling the same stretch hand over the same lines |
| AuditTail.FeedRecords | app/control/src/dnslog.rs:151-160 | Handing lines over records exactly their queries, in order |
| AuditTail.RecordedOne | app/control/src/dnslog.rs:151-160 | A line records its query if it has one, and nothing otherwise |
| AuditTail.RotationStartsOver | app/control/src/dnslog.rs:117-150 | After a rotation or truncation the complete lines from the beginning of the file there is now are handed over, and the cursor follows that file |
| AuditTail.FirstSightSkips | app/control/src/dnslog.rs:117-150 | The first sight of a file hands nothing over and starts at its end |
| CivilDate.NextDayIsOneMore | app/control/src/cloudflare.rs:178-185 | The next valid calendar day has the next number, for every integer year |
| CivilDate.EpochIsZero | app/control/src/cloudflare.rs:174-185 | 1970-01-01 is day zero |
| CivilDate.CountsFromEpoch | app/control/src/cloudflare.rs:178-185 | The number is the day-by-day distance from the epoch, forwards and backwards |
| CivilDate.DaysAreOrdered | app/control/src/cloudflare.rs:178-185 | Numbers preserve and reflect the order of dates, and no two dates share one |
| CivilDate.SecondsAreOrdered | app/control/src/cloudflare.rs:153-172 | The seconds of valid timestamps preserve and reflect their order |
| CivilDate.NextSecondIsOneMore | app/control/src/cloudflare.rs:153-172 | The next second of a valid timestamp, across minutes, hours, days, months and years, has the next number |
| CivilDate.EpochSecondIsZero | app/control/src/cloudflare.rs:153-172 | Midnight of 1970-01-01 is second zero |
| CivilDate.PastMonthEndCountsOn | app/control/src/cloudflare.rs:165-172 | A day past the end of its month, up to 31, is accepted and reads as the day of the next month it counts on to |
| CivilDate.ParseRendered | app/control/src/cloudflare.rs:153-172 | Every timestamp printed in the format parses to its seconds since the epoch if its numbers are in range (a day up to 31, leap seconds as the code takes them) and to nothing otherwise; what follows the seconds is dropped |
| CivilDate.ParseWithoutSeconds | app/control/src/cloudflare.rs:153-172 | And printed without seconds it parses as if they were zero |
| CivilDate.ParsedTimeIsOrdered | app/control/src/cloudflare.rs:153-172 | Hence the parsed time is strictly increasing in the timestamp |
| RateLimit.Limiter.Allow | app/control/src/ratelimit.rs:35-54 | One call is one step of the limiter, answer included |
| RateLimit.SlidingBound | app/control/src/ratelimit.rs:35-54 | With a clock that never goes back any half-open interval of one window admits at most twice the limit, per key and in all |
| RateLimit.RefusedOnlyWhenFull | app/control/src/ratelimit.rs:35-54 | A refused request means that within the last window the key, or all keys together, had been admitted up to the limit |
| RateLimit.TotalIsSum | app/control/src/ratelimit.rs:35-54 | Throughout, `total` is the sum of the per-key counts and within `global` |
| RateLimit.MapBound | app/control/src/ratelimit.rs:35-54 | The key map stays within `global` keys in every run if and only if a key may be admitted at all, or nothing may |
| FanOut.AtMostEightInFlight | app/control/src/main.rs:1770-1808 | In every interleaving at most eight tasks exist, so at most eight sends are under way, and none after the deadline |
| FanOut.EachAttemptedOnce | app/control/src/main.rs:1770-1803 | Subscriptions are attempted in list order, each at most once, all of them if the loop ends by itself |
| FanOut.OneActionPerReturn | app/control/src/main.rs:1783-1796 | A send that came back leads to exactly its one action, done or about to be done; a send that did not leads to none |
| FanOut.RowsDependOnOwnOutcome | app/control/src/db.rs:2191-2261 | Whatever the interleaving, each row ends as its own send's answer says, and other rows are untouched |
| FanOut.RowsInTheEnd | app/control/src/main.rs:1783-1796 | When the loop comes to its own end, a subscription that is gone has no row, one that took the message has no failures, one that failed has one more, one without an answer is as it was |
| FanOut.SchedulingDoesNotMatter | app/control/src/main.rs:1770-1808 | Two finished runs with the same answers leave the same table |
| FanOut.NeverStuck | app/control/src/main.rs:1773-1803 | While the loop runs and every task has ended, the loop can move or reap |
| FanOut.EveryStepGetsCloser | app/control/src/main.rs:1770-1808 | Every step leaves less to do, so no run goes on for ever |
| FanOut.CanFinish | app/control/src/main.rs:1770-1808 | From every point of every run the loop can still come to its own end, whatever the sends answer |
| FanOut.EverySendIsAnswered | app/control/src/main.rs:1770-1808 | When the loop comes to its own end every subscription has been sent to: its send came back or crashed, and exactly those that came back have had their one action |

## Left out

- HTTP routing, cookies, tower-sessions internals, SQLite and its migrations: tables are maps, each locked call is one step.
- WebAuthn, HMAC and push encryption: verification is a yes/no answer, hashes are compared as given.
- MIME, URL and IP parsing: the parsed URL is a record, the address parser is a predicate parameter; so is what one audit line says (`parse_line`).
- Full Unicode lower-casing: `Lower` changes ASCII letters only; white space is the exact Unicode property.
- Handlers interleave whole: the check-then-act gaps between two locked calls of one handler are not modelled, except where the source holds one lock.
- Random ids are parameters: account ids never repeat, `create` is given draws with a free one among them.
- Registration leaves out display names, platform grants, rate limits, session expiry and audit rows.
- Session ids are not renewed on login in the model; a session is its own history.
- 64-bit overflow, except the query counter and the parsed integers, which wrap or fail as in the source.
- `purge_expired` and the rest of one sync read the clock once in the model; the order of `list_allow` is left open.
- A notice that is being sent delays the rest of a renewal turn; that delay counts as part of the gap between ticks.
- Log rotation: the step is modelled, the guarantee is for stretches in which the file only grows. Whether bytes are UTF-8 is a predicate parameter, and errors of the file system are left out.
- Fan-out: aborting a task takes effect at once, a panic strikes only while a task is sending, and no other handler changes the subscription table meanwhile; `last_ok_at` is not modelled.
- `extract_links`, `decode_entities`, `html_to_text`, `is_actionable`, `mode_allows`, `forward_targets`, `clamp_received`: settled by reading one branch.
- Resend and Cloudflare clients, the frontend, the service worker, shell scripts and server configuration.
- File writing by rename and the `nft` process itself: `NftFile` is about the text and the set about its content.
