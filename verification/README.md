# Lanrunner, verified model

Lanrunner is a chat program for a local network. This project models four of its cores in Dafny and
proves what they promise.

* **The QR encoder** (`qr.go`): table-driven GF(256) arithmetic, the Reed-Solomon generator and
  remainder, the payload, blocks and interleaving, function patterns, zigzag placement, masks, format
  bits, penalty and mask choice. `QrCode.Read` is a reader for finished symbols: it knows only the
  version table, the areas of a symbol, the zigzag walk and the mask formulas, and finds every byte of a
  block from the block lengths. The main results are that
  reading an encoded symbol returns the text, that exactly the texts of up to 213 bytes are accepted,
  and that a symbol with damaged modules still reads as the text while no block has more damaged bytes
  than half its check bytes and at most three modules of the format bits are wrong.
* **Simultaneous connects** (`transport.go`): the connection table of one node, and a step system of
  two nodes in which every register, close, read error and cleanup may interleave, and links may fail.
* **The encrypted channel** (`crypto.go`): writer and reader joined by an arbitrary byte stream, or by a
  socket that may fail within a frame, under an ideal cipher given as two functions.
* **The guest gateway** (`guest.go`): replay window, throttle on failed handshakes, rate limit, and the
  doubly indexed session table, for whole handlers and for their interleaved critical sections.

Bytes are naturals below 256 and Go's machine words are naturals or integers with their wrap-around
written out (`SecureChannel.COUNTERS`, `AuthThrottle.Wrap64`, `ReplayWindow.Low`). Slices, grids and
objects that the program updates in place are arrays and classes whose methods are proved against
specification functions; the properties are lemmas about those functions, and where writer and reader share
one of them, a lemma says independently of it what the standard or the program promises. Clocks, random identifiers
and the cipher are parameters.

| file | content |
|---|---|
| Bits, GaloisField, Polynomials, ReedSolomon | exclusive or, the field, the code |
| QrVersions, QrPayload, QrBlocks | version table, payload bits, block split and interleave |
| QrLayout, QrZigzag, QrGrid, QrPenalty, QrSymbol | areas, walk and capacity, grids, penalty, finished symbol |
| QrCode, QrDamage | encoder and reader, round trip, error correction |
| SimultaneousConnect, SecureChannel | peer transport |
| ReplayWindow, AuthThrottle, RateLimit, GuestHub, GuestInterleaving | guest gateway |

## Where the code decides

* Alignment patterns centred on the timing row or column are skipped because the timing modules are
  already reserved (`qr.go:285`). Versions 7 to 10 therefore have 40 free modules more than the
  standard counts; `QrZigzag.Capacity` states the exact number for every version.
* The first copy of the format bits is laid along row 8 where the standard runs along column 8
  (`qr.go:420-431`). At the standard's place of bit i a symbol shows bit 14 - i
  (`QrCode.FirstCopyIsReversed`), so the word read there is no format word of level M
  (`QrCode.FirstCopyIsNoWord`). A reader that corrects it takes it for a wrong level or mask, always the
  same one for each mask (`QrDamage.FirstCopyIsMisread`); if it knows the level it takes mask 4 for 6 and
  mask 6 for 4 and finds nothing for the others (`QrDamage.NearestOfFirstCopy`). The reader here uses the
  second copy.
* A refused oversize write has already consumed a counter (`crypto.go:116-120`). The prefix property
  is untouched, but nothing written later is delivered; `SecureChannel.UnmodifiedStream` says exactly
  when every successful write arrives, and `SecureChannel.RefusedWriteLosesTheNext` shows one that does
  not.
* Two connections dialed by the same side are kept in order of arrival (`transport.go:317`), so the
  two ends may disagree; `SimultaneousConnect.OrderIrrelevant` says exactly when they agree.
* A full invite evicts only a session created strictly before now (`guest.go:1583-1588`).
  `GuestHub.LimitHoldsIff` says exactly when the limit of four survives a join, and
  `GuestHub.CrowdAtOneMoment` shows a run of hellos at one moment after which it does not.
* A hello checks its invite, inserts its session and drops the evicted one in separate critical sections
  (`guest.go:1502`, `guest.go:1575-1599`). The two indexes agree however these interleave
  (`GuestInterleaving.InterleavingKeepsSound`). Every session of a retired invite is on its way out exactly
  if every hello finds its invite still live when it inserts (`GuestInterleaving.WelcomeIff`), and one that
  does not stays (`GuestInterleaving.LateGuestStays`). The limit of four holds exactly if no hello that
  finds four staying sessions replaces one that another is about to drop
  (`GuestInterleaving.InterleavedLimitIff`); with sessions inserted in the order of their creation, exactly
  if no hello finds a fifth session in the table (`GuestInterleaving.OrderlyLimitIff`).
  `GuestInterleaving.LineLeavesOneLess` is a run that breaks it.

## Model

| member | source | states |
|---|---|---|
| GaloisField.ReduceIsRemainder | qr.go:21-22 | Reduction modulo 0x11d leaves a byte that differs from its argument by a multiple of the modulus, over GF(2) |
| GaloisField.MulAssoc | qr.go:43-48 | The field product of bytes is associative |
| GaloisField.MulComm | qr.go:43-48 | It is commutative |
| GaloisField.MulDist | qr.go:43-48 | It distributes over exclusive or, on both sides |
| GaloisField.OrderIs255 | qr.go:28-41 | No power of the generator between 1 and 254 is 1 |
| GaloisField.PowPeriod | qr.go:38-40 | The powers repeat after 255 |
| GaloisField.PowOnto | qr.go:30-37 | Every nonzero byte is one of the first 255 powers, so every logarithm is filled |
| GaloisField.NoZeroDivisors | qr.go:43-48 | A product is zero exactly if a factor is |
| GaloisField.Inverse | qr.go:43-48 | Every nonzero byte has an inverse |
| GaloisField.Tables.constructor | qr.go:28-41 | The two loops leave the first 512 powers in one table and their logarithms in the other |
| GaloisField.Tables.GfMul | qr.go:43-48 | The table look-up, with every index in range, is the carry-less product reduced by 0x11d |
| Polynomials.Vandermonde | qr.go:52-63 | A word of weight at most n whose first n power sums at distinct locators vanish is zero |
| ReedSolomon.GeneratorRoots | qr.go:50-63 | The generator vanishes exactly at a^0 to a^(n-1) |
| ReedSolomon.RsGenerator | qr.go:52-63 | The nested loops build that polynomial for every n that the table of powers covers |
| ReedSolomon.RsEncode | qr.go:66-78 | Shifting and subtracting in place computes the remainder |
| ReedSolomon.DivisionIdentity | qr.go:69-76 | data x^n is quotient times generator plus remainder, at every point of the field and for data of any length |
| ReedSolomon.CodewordHasZeroSyndromes | qr.go:66-78 | A codeword evaluates to 0 at a^0 to a^(n-1) |
| ReedSolomon.RemainderIsUnique | qr.go:66-78 | For n up to 255 no other check block of n bytes makes every syndrome vanish |
| ReedSolomon.CodeDistance | qr.go:66-78 | Codewords of different data of one length, up to 255 bytes in all, differ in at least n + 1 bytes |
| ReedSolomon.DamageIsCorrectable | qr.go:8-11 | A word with at most n/2 damaged bytes is strictly closer to its own codeword than to any other |
| QrVersions.TableConsistent | qr.go:94-130 | For every version, blocks and check bytes add up, blocks are words of at most 255 bytes, and the capacity leaves room for the header |
| QrVersions.BlocksOfLevelM | qr.go:94-105 | For every version the number of blocks and the codewords and data codewords of each are those of level M in Table 9 of ISO/IEC 18004:2015 |
| QrVersions.CapacityOfLevelM | qr.go:160-171 | 14, 26, 42, 62, 84, 106, 122, 152, 180 and 213 bytes fit into versions 1 to 10, as Table 7 of the standard has it, with a count field of one byte below version 10 and of two in it |
| QrPayload.BitBuffer.Append | qr.go:138-142 | Appends the lowest bits of a value, highest first |
| QrPayload.BitBuffer.Bytes | qr.go:144-152 | Packs eight bits to a byte, the last byte filled with zeros |
| QrPayload.PackedBit | qr.go:144-152 | Every packed bit is read back at its own place |
| QrPayload.BuildPayload | qr.go:173-199 | Header, text, terminator, byte alignment and alternating pad bytes fill the data codewords exactly |
| QrPayload.PayloadBytes | qr.go:173-199 | Every data codeword in plain arithmetic: the mode nibble 0100 shifts count field and text by half a byte, a zero nibble ends them, and 236 and 17 alternate to the end |
| QrPayload.ReadsBack | qr.go:178-199 | Parsing the payload returns the text, for every text within the capacity |
| QrBlocks.EncodeBlocks | qr.go:201-232 | Cutting into blocks, adding check bytes and both interleaving loops give the specified codeword sequence |
| QrBlocks.InterleaveAt | qr.go:220-232 | For blocks of any lengths, byte i of block b lands at the position computed from the lengths alone |
| QrBlocks.InterleavedPlaces | qr.go:220-232 | In the table's block structure byte i of block b is codeword i times the number of blocks plus b, the extra bytes of longer blocks come last, and check bytes follow in the same way |
| QrBlocks.BlockCuts | qr.go:201-218 | Blocks are consecutive pieces of the payload, those of the first group first |
| QrBlocks.DataBlockReadsBack | qr.go:205-227 | De-interleaving recovers every data block, for any two groups |
| QrBlocks.CheckBlockReadsBack | qr.go:208-232 | De-interleaving recovers every block of check bytes |
| QrBlocks.CodewordsReadBack | qr.go:201-232 | Together the recovered data blocks are the payload |
| QrLayout.FunctionPatterns | qr.go:242-328 | The overlapping writes leave every module of every area in its standard colour, and reserve exactly those areas |
| QrLayout.FinderPicture | qr.go:255-269 | In each of three corners a dark frame of seven modules, a light one inside it, a dark square of three, and a light border |
| QrLayout.TimingPicture | qr.go:271-279 | Between the finders row 6 and column 6 alternate, dark next to a finder |
| QrLayout.AlignmentPicture | qr.go:281-296 | Around every pair of coordinates beyond the first a dark frame of five modules, a light one, and a dark centre |
| QrLayout.AlignmentSpacing | qr.go:94-105 | The coordinates run evenly from 6 to the seventh module from the far edge |
| QrLayout.DarkModulePicture | qr.go:298-299 | The module beside the lower finder is dark |
| QrLayout.InfoModules | qr.go:317-325 | Bit i of the version word is at row i / 3, column size - 11 + i % 3, and mirrored |
| QrZigzag.WalkComplete | qr.go:337-360 | For every odd size the two-column walk visits each module outside column 6 exactly once, and none in it |
| QrZigzag.WalkCourse | qr.go:337-360 | The walk starts in the bottom right corner, goes left at every second step, otherwise one row on in the same two columns, and at their end to the next two in the same row, skipping column 6 |
| QrZigzag.DataStartsInCorner | qr.go:337-360 | The first four free modules are those of the bottom right corner, from right to left and from bottom to top |
| QrZigzag.DataCellsExact | qr.go:337-360 | Every free module gets exactly one bit index, and no reserved one does |
| QrZigzag.Capacity | qr.go:336-360 | The number of free modules is eight times the codewords plus 0, 7 or 40, so no codeword bit is lost |
| QrPenalty.OnlyRun | qr.go:448-475 | At each position at most one maximal run ends, and the scan's counter is its length |
| QrPenalty.ScanStep | qr.go:451-474 | Scoring a run where the colour changes adds up to the sum over all maximal runs |
| QrPenalty.PointsOfRun | qr.go:451-474 | A run of five costs three points, each further module one more, shorter runs nothing |
| QrPenalty.OneColour | qr.go:451-474 | A line of one colour of n modules, n at least five, costs n - 2 |
| QrPenalty.ScoreSplits | qr.go:451-474 | Where the colour changes a line falls into two parts that are scored on their own |
| QrPenalty.RunsOfTranspose | qr.go:447-475 | Turning the symbol over changes no score: columns count as rows do |
| QrPenalty.PenaltyCounts | qr.go:477-527 | Beyond runs the penalty is three points for each solid two by two block, forty for each finder-like sequence in a row or column, and the balance of the number of dark modules |
| QrPenalty.PatternPictures | qr.go:489-494 | The two sequences are the profile of a finder with four light modules on one side or the other |
| QrPenalty.BalanceMeans | qr.go:513-526 | Ten points for every full five percent between the whole percentage of dark modules and fifty |
| QrPenalty.ScorePenalty | qr.go:445-527 | The loops compute the declarative penalty: maximal runs of rows and columns, solid blocks, finder-like sequences, balance |
| QrSymbol.MaskShapes | qr.go:379-398 | Masks 0, 3 and 4 select a chequerboard, diagonals and bricks |
| QrSymbol.MaskStripes | qr.go:379-388 | Mask 1 selects every second row and mask 2 every third column, from the first on |
| QrSymbol.ProductMasks | qr.go:391-396 | Masks 5, 6 and 7 go by the residues of the product of row and column |
| QrSymbol.FormatModulesExact | qr.go:414-441 | The two format copies are 30 distinct modules, exactly the format areas, and miss the dark module |
| QrSymbol.WordHasShape | qr.go:109-112 | Every format bit is an affine function of the three bits of the mask number |
| QrSymbol.PlaceData | qr.go:334-360 | The zigzag loops put bit j of the codewords into the j-th free module and leave the rest alone |
| QrSymbol.DataModules | qr.go:334-360 | The j-th free module carries bit j of the codewords, highest bit of each byte first; the modules left over are light |
| QrSymbol.FirstBits | qr.go:337-360 | The four highest bits of the first codeword are in the bottom right corner, going left before going up |
| QrSymbol.ApplyMask | qr.go:400-412 | Exactly the free modules that the mask selects are inverted, in a new grid |
| QrSymbol.PlaceFormat | qr.go:414-441 | Both copies get their bits, the dark module is set, every other module keeps its colour |
| QrSymbol.FunctionPatternsSurvive | qr.go:239-241 | Function modules outside the format areas keep their colour in every symbol under every mask |
| QrSymbol.BestMaskIsLowestMinimum | qr.go:362-376 | The chosen mask has the least penalty, and every lower-numbered mask scores strictly worse |
| QrSymbol.BuildMatrix | qr.go:330-377 | A symbol is always built, and it is the specified one under the best mask |
| QrCode.SymbolReadsBack | qr.go:330-377 | Taking off the mask and reading in zigzag order returns the codewords, under every mask |
| QrCode.FormatReadsBack | qr.go:414-441 | The format word read from the second copy is the one of the mask used |
| QrCode.SecondCopyPlaces | qr.go:433-438 | Bits 0 to 7 of the format word go left along row 8 from the right edge, bits 8 to 14 down column 8 to the bottom edge |
| QrCode.FirstCopyIsReversed | qr.go:420-431 | In every symbol the place that section 7.9 of ISO/IEC 18004:2015 gives to bit i of the first copy shows bit 14 - i |
| QrCode.FirstCopyIsNoWord | qr.go:420-431 | The word read there is not the format word of any mask, in any symbol |
| QrCode.SmallestVersion | qr.go:160-170 | The version chosen is the first that carries the text |
| QrCode.LargestCapacity | qr.go:167-170 | A version is found exactly for texts of at most 213 bytes |
| QrCode.RoundTrip | qr.go:157-235 | Reading the encoded symbol returns the text, for every text and every version that carries it |
| QrCode.QrEncode | qr.go:157-235 | Exactly the texts of at most 213 bytes are encoded; the grid returned is the symbol of the text in the smallest version under the best mask, and it reads as the text |
| QrDamage.DamagedSymbolReads | qr.go:8-11 | A symbol with changed modules reads as the text after correction, if at most three modules of the second format copy are wrong and in each block at most half as many bytes have a changed module as it has check bytes; all other modules may change |
| QrDamage.FormatDistance | qr.go:109-112 | Two format words differ in at least seven bits, so three wrong ones leave the mask certain |
| QrDamage.FirstCopyIsMisread | qr.go:420-431 | Among the format words of all levels and masks, the word at the standard's first copy is three bits away from one wrong word, fixed for each mask, and at least four from all others |
| QrDamage.NearestOfFirstCopy | qr.go:420-431 | Among the words of level M alone, the nearest is mask 6 for mask 4 and mask 4 for mask 6, and none for the other six |
| QrDamage.CorrectionAgrees | qr.go:157-235 | On an undamaged symbol correction returns the same text |
| SimultaneousConnect.LessIsStrictOrder | transport.go:317 | The comparison of fingerprints is asymmetric and total |
| SimultaneousConnect.LessIsTransitive | transport.go:317 | It is transitive |
| SimultaneousConnect.LessIsLexicographic | transport.go:317 | It is the order of dictionaries: a proper prefix comes first, otherwise the first difference decides |
| SimultaneousConnect.OrderIrrelevant | transport.go:306-329 | Registering two connections in either order leaves the same survivor exactly if different sides dialed them, and then the one dialed by the smaller fingerprint |
| SimultaneousConnect.Conn.Close | transport.go:376-386 | Closing marks the connection and closes its link once |
| SimultaneousConnect.App.Register | transport.go:309-329 | The new connection enters the table if there is none or its dialer is smaller, and then the old one is closed; of two, the one kept is not dialed by the larger side; the rest is untouched |
| SimultaneousConnect.App.Finish | transport.go:357-362 | A connection that ends is closed and leaves the table, and only its own entry goes |
| SimultaneousConnect.App.CloseAllConns | transport.go:645-656 | The table is emptied and everything it held is closed |
| SimultaneousConnect.NeverLeftInTable | transport.go:331-365 | In every run, whatever links and handshakes fail, a table never holds a connection whose `runConn` has returned |
| SimultaneousConnect.TablesAgree | transport.go:143-175 | Every finished run, whatever links fail, whichever handshakes fail at one end or both, and whatever the fingerprints, leaves both tables with the same link or both with none |
| SimultaneousConnect.RunConverges | transport.go:306-365 | In every run without outside failures the smaller side's link is never closed, and once registered it stays in the table |
| SimultaneousConnect.BothKeepTheSame | transport.go:306-308 | A finished run without outside failures leaves both tables with the same link, dialed by the smaller fingerprint if that side dialed, open and read at both ends, and the loser closed and gone at both ends |
| SimultaneousConnect.RunsAreShort | transport.go:309-365 | Every such run ends within 26 steps |
| SecureChannel.NonceInjective | crypto.go:104-109 | Below 2^64 different counters give different nonces |
| SecureChannel.NonceLayout | crypto.go:104-109 | A nonce is the four bytes of the prefix and the counter in eight bytes |
| SecureChannel.LeadingByte | crypto.go:104-127 | Counters and lengths are written with the byte of greatest weight first |
| SecureChannel.NoncesDistinctIff | crypto.go:112-117 | The nonces that a run of writes uses, refused ones included, are pairwise distinct exactly if there are at most 2^64 of them |
| SecureChannel.SecureConn.WriteFrame | crypto.go:112-131 | Sends the length-prefixed ciphertext under the current counter, or as much of it as the socket takes, or nothing if it is too long or the socket has failed before; the counter moves on in every case |
| SecureChannel.SecureConn.ReadFrame | crypto.go:135-158 | Reads one frame and opens it under the current counter, with every error case |
| SecureChannel.ReadOutcome | crypto.go:135-158 | Every outcome of a read by the declared length: zero and more than 65536 are refused, less than declared ends the stream, otherwise the frame opens or fails to authenticate |
| SecureChannel.RefusedIff | crypto.go:118-120 | Exactly plaintexts of more than 65520 bytes are not sent |
| SecureChannel.SecureConn.ReadLoop | transport.go:342-355 | Delivers plaintexts up to the first error |
| SecureChannel.DeliversPrefix | crypto.go:43-48 | For every byte stream whatever, the plaintexts delivered are a prefix of those sealed, in counter order |
| SecureChannel.UnmodifiedStream | crypto.go:112-158 | On an unmodified stream everything up to the first refused write is delivered; every successful write is, exactly if none follows a refused one |
| SecureChannel.RefusedWriteLosesTheNext | crypto.go:116-120 | With an oversize plaintext before a short one the second write succeeds and is not delivered |
| SecureChannel.FailingSocket | crypto.go:112-158 | Through a socket that fails at any byte, exactly the writes before the first refused or failed one are delivered |
| SecureChannel.IdealExists | crypto.go:43-48 | For every session of fewer than 2^64 writes some cipher is ideal, so the theorems above are not about nothing |
| SecureChannel.EndsMirror | transport.go:255-261 | Whatever keys the dialer sends with the responder receives with, and the other way round |
| SecureChannel.HandshakeInputs | crypto.go:70-80 | Both ends derive from the dialer's nonce and the responder's, in this order, and from the two info strings written out; the dialer sends with the first |
| SecureChannel.DirectionsDiffer | crypto.go:70-80 | With a collision-free derivation no end ever sends and receives with the same key |
| SecureChannel.KeysSharedIff | crypto.go:67-80 | For one secret and salt two derived keys are equal exactly if dialer, responder and direction are |
| SecureChannel.InfoInjective | crypto.go:65-71 | The derivation input determines both fingerprints and the direction |
| ReplayWindow.Window.Accept | guest.go:90-113 | Accepts exactly if the counter is nonzero, was never accepted, and trails no accepted counter by 64 or more |
| ReplayWindow.NeverTwice | guest.go:78-84 | Over every run no counter is accepted twice |
| ReplayWindow.MildReordering | guest.go:78-84 | If no counter trails an earlier one by 64 or more, exactly the first copies of nonzero counters are accepted |
| AuthThrottle.BackoffIsCappedDoubling | guest.go:160-168 | For every failure count from five on, the wait is thirty seconds doubled each time and capped at fifteen minutes, despite overflow of the shift |
| AuthThrottle.StreakCosts | guest.go:150-169 | The n-th failure of an address, each at most two minutes after the one before, imposes nothing below five, and from then on thirty seconds doubled each time up to fifteen minutes |
| AuthThrottle.WaitRunsDown | guest.go:136-147 | What a failure imposed is reported less the time that has passed, down to nothing |
| AuthThrottle.SuccessForgets | guest.go:171-175 | After a success no wait is left, the next failure counts as the first, and other addresses are not affected |
| AuthThrottle.SweepDrops | guest.go:177-185 | A record goes exactly if its last failure is more than two minutes old and its wait is over |
| AuthThrottle.Throttle.Blocked | guest.go:136-147 | Reports the remaining wait of an address |
| AuthThrottle.Throttle.Bad | guest.go:150-169 | Counts a failure, starting afresh after the window, and returns the wait imposed, each of the three clock readings where the source takes it; other addresses keep their records |
| AuthThrottle.Throttle.Good | guest.go:171-175 | Forgets one address |
| AuthThrottle.Throttle.Sweep | guest.go:177-185 | Drops exactly the records that are out of the window and no longer block, by the two clock readings taken for each |
| AuthThrottle.SweepIsInvisible | guest.go:136-185 | Two runs with the same calls and a clock that never runs backwards answer the same, wherever their sweeps are |
| AuthThrottle.GatedBound | guest.go:1348-1366 | With handshakes one at a time no address counts more than eight failures and no wait exceeds four minutes |
| AuthThrottle.ConcurrentGatedBound | guest.go:136-169 | With at most k handshakes of an address past the gate at once, in any interleaving, it never counts more than 7 + k failures |
| AuthThrottle.ConcurrentBoundIsReached | guest.go:136-169 | For every k some run reaches 7 + k |
| AuthThrottle.BackoffGrows | guest.go:160-168 | Waits do not get shorter with more failures, so the bound on failures bounds the wait |
| AuthThrottle.EightIsReached | guest.go:1348-1366 | A gated run in which one address does reach eight failures |
| RateLimit.Session.Allow | guest.go:379-389 | Counts a call in a window that restarts after ten seconds, and allows thirty in each |
| RateLimit.OneWindow | guest.go:379-389 | At most thirty calls are allowed in one counting window |
| RateLimit.SlidingBound | guest.go:377-389 | Any closed stretch of ten seconds holds at most sixty allowed calls |
| RateLimit.RefusedOnlyAfterThirty | guest.go:379-389 | A call is refused only if the thirty calls before it fall in the ten seconds before it |
| RateLimit.SpacedCallsAllowed | guest.go:379-389 | Calls of which no thirty-one fall in ten seconds are all allowed |
| RateLimit.WindowEdge | guest.go:383-386 | A call exactly ten seconds after the window opened is still counted in it, and a nanosecond later the next one opens |
| GuestHub.RunKeepsInvariant | guest.go:451-463 | After every call of every run: a session is in the table exactly if it is filed under its own invite, no entry is empty, no invite has more than four, none belongs to an unknown, revoked or retired invite, none is unencrypted unless its invite allows it, and the order lists the invites |
| GuestHub.JoinKeeps | guest.go:1574-1599 | A guest who joins is in the tables, and all of that still holds if the clock has moved |
| GuestHub.LimitHoldsIff | guest.go:1574-1599 | The limit of four survives a join exactly if the invite was not full or some session of it was created earlier |
| GuestHub.CrowdAtOneMoment | guest.go:1574-1599 | Hellos at one moment are all let in: n of them leave n sessions, for every n |
| GuestHub.SweepLeavesUsable | guest.go:1444-1477 | After a sweep every session belongs to an invite that was usable when the sweep looked at it |
| GuestHub.HelloOpensIff | guest.go:1501-1599 | A hello opens a session exactly if it presents the token of a known invite, neither revoked nor expired, in the right version, with a usable key or leave to go without; otherwise nothing changes |
| GuestHub.EverySessionCameFromHello | guest.go:1436-1438 | Over every run each session in the table came from an earlier hello that met all of that for the session's own invite |
| GuestHub.JoinEvictsOldest | guest.go:1574-1599 | A join takes away at most one session, only of its own invite when four are filed, and none that stays of it is older |
| GuestHub.RevokeExactly | guest.go:1214-1239 | A revocation takes away exactly the sessions of its invite and leaves all others as they are |
| GuestHub.RemoveExactly | guest.go:1241-1259 | A removal does that and forgets the invite |
| GuestHub.SweepExactly | guest.go:1447-1477 | A sweep takes away exactly the sessions of invites it finds expired and has not retired before |
| GuestHub.ReapExactly | guest.go:873-883 | A reap takes away exactly the sessions last used more than three minutes before |
| GuestHub.InvitesBounded | guest.go:957-962 | With calls one at a time a hub that starts with at most sixty-four invites never has more |
| GuestHub.Gateway.DropSession | guest.go:1291-1305 | Takes one session out of both tables, and an emptied entry with it |
| GuestHub.Gateway.Revoke | guest.go:1214-1239 | Marks the invite and takes out all its sessions |
| GuestHub.Gateway.Remove | guest.go:1241-1259 | Revokes, then forgets the invite and its place in the order |
| GuestHub.Gateway.SweepExpired | guest.go:1447-1477 | Retires each newly expired invite once, by the clock reading taken for it, and takes out its sessions |
| GuestHub.Gateway.Hello | guest.go:1501-1599 | Admits exactly the holders of a usable invite's token whose version and key are acceptable, and evicts one of the oldest sessions of a full invite; the clock is read for the invite, for the session and for the eviction |
| GuestHub.Gateway.Insert | guest.go:1574-1595 | The critical section of a hello: files the session and picks one of the oldest of a full invite to replace |
| GuestHub.PickOldest | guest.go:1581-1589 | Finds a session that none is older than, if one was created before now |
| GuestHub.Gateway.Reap | guest.go:873-883 | Drops exactly the sessions idle for more than three minutes, by the clock reading taken for each |
| GuestInterleaving.InterleavingKeepsSound | guest.go:451-463 | From a loaded hub, however the critical sections of all handlers interleave, a session is in the table exactly if it is filed under its own invite, no entry is empty, and the order lists the invites |
| GuestInterleaving.WelcomeIff | guest.go:1501-1595 | In every interleaving, all along, every session of a revoked, removed or retired invite is one that some handler has undertaken to drop, exactly if every hello finds its invite live when it inserts |
| GuestInterleaving.LateGuestIff | guest.go:1214-1239 | A guest whom only the revocation drops outlives it exactly if it is inserted after the sessions to drop were collected |
| GuestInterleaving.InterleavedLimitIff | guest.go:1574-1599 | For any number of hellos in flight and any clocks, the sessions of an invite that nobody is about to replace number at most four all along, exactly if no hello that finds four of them replaces one already being replaced, or none |
| GuestInterleaving.OrderlyLimitIff | guest.go:1574-1599 | If sessions are inserted in the order of their creation, that is so exactly if no hello finds more than four sessions of its invite in the table |
| GuestInterleaving.TwoHellosIff | guest.go:1574-1599 | Of two hellos of a full invite, four sessions remain if the first drops its victim before the second inserts, and five if not |
| GuestInterleaving.LineLeavesOneLess | guest.go:1574-1599 | From five hellos on that all insert before any of them drops its victim, n leave n - 1 sessions |
| GuestInterleaving.LateGuestStays | guest.go:1502-1595 | A run in which a hello inserts after its invite was revoked and its session stays, with nobody left who would drop it |

## Left out

- HTTP handlers, event streams, listeners, discovery, identity store, history, installers, the web pages and SVG rendering: plumbing around the cores.
- AES-GCM, HMAC, HKDF, X25519, P-256, Ed25519, TLS: library calls; the channel uses an ideal cipher with 16-byte tags, and `DeriveSession` takes the derivation as a function.
- BCH contents of the format and version words: constants taken over from the source.
- A decoding algorithm: `QrDamage.ReadCorrected` says what correction yields, by nearest codeword and nearest format word, not how to find it.
- SecureChannel.DeliversPrefix: holds for sessions of fewer than 2^64 frames, because the counter wraps there.
- SimultaneousConnect.BothKeepTheSame: which link survives is said of runs without outside failures (agreement, `TablesAgree`, of all runs), and each side dials at most once; `dialPeer` does not mark dials in flight, and `OrderIrrelevant` shows that two dials of one side may disagree.
- Connections of one node to further peers: table entries of different peers do not interact, so the two-node system has one entry a node.
- Heartbeats and the ping table, message handling and acknowledgements: no bearing on which connection survives.
- GuestHub.RunKeepsInvariant: handlers run one at a time with a strictly advancing clock and unused ids; `GuestInterleaving` says exactly which interleavings keep it.
- Labels, nicknames, last-seen times, handoff codes, session keys and message queues of the gateway: they do not touch the indexes.
