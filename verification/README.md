# Commander scripts: model and proofs

Commander's `scripts/` directory holds the code that produces and checks evidence: canonical
encodings whose hashes are retained, a guarded source rewriter, a shared rate limiter, benchmark
aggregation, a key-rotation ledger, load and fairness measurements, and the promotion chain. The
decisions these scripts make rest on properties that none of them states in one place. This project
models them in Dafny and proves those properties for all inputs, runs and interleavings.

| module | what it models |
|---|---|
| `Ordering` | sorting by a sequence of integers, as both canonicalisers and the chart digest use it |
| `CanonicalJson`, `JsonEscapes`, `ArtifactHashes` | the printing canonicaliser, a parser for JSON texts, why its escapes are the shortest, and retained artifacts |
| `RebuiltJson` | the canonicaliser that rebuilds sorted objects, with JavaScript's property enumeration |
| `Balance`, `EmptyBody`, `CatchRewrite`, `ReportText`, `RewriteBalance`, `RewriteSettles` | the bracket automaton, the rewrite of empty catch blocks it guards, and the text that rewrite writes |
| `Throttle`, `RetryTime` | the promise-chain rate limiter and the retry loop around it, as interleaved steps, and how long retries take |
| `Utf8`, `ChartAnnotation`, `ChartPreimage`, `ChartDigest`, `ChartListing`, `ChartTree`, `ChartRefusal`, `ChartTexts`, `ChartStamp` | the chart content digest, its self-masking annotation, when a chart is refused, stamp and verify |
| `Campaign`, `CampaignCauses` | the validator of one campaign observation, and the cause of each code |
| `Rollback`, `RollbackCounts`, `RollbackCauses`, `RollbackVerdict`, `RollbackRun`, `RunCauses` | the governed-rollback aggregation, what its counters count, the cause of each failure, its verdict and the benchmark run |
| `WarRoom`, `WarRoomTimes` | mission auto-progress over whole runs |
| `AuditContiguity` | the SQL and the in-memory form of sequence contiguity |
| `Rotation`, `RotationArguments` | the command line and the two-phase key-rotation ledger under interleaving invocations |
| `WorkerPool`, `Fairness`, `Hashing` | the shared-queue workers, Jain's index, and 32-bit hash and generator arithmetic |
| `Promotion`, `PromotionCauses` | manifest, staging-marker and promotion verifiers composed, and the cause of each reason |
| `Wrappers`, `Sequences`, `JsText` | options, results and character classes |

Loops that update variables are methods proved against specification functions; objects that are
updated in place are classes. SHA-256 is an arbitrary function of the bytes. JSON strings are
sequences of UTF-16 code units, and section 3.2.3 of RFC 8785 is the sorting both canonicalisers
follow. The clock is monotone and timers never fire early.

## Where the code does not do what it is for

The model keeps the code as it is. For each point a lemma names an input on which the code fails and
another says exactly when it does what is meant.

- The two canonicalisers print different texts for integer-like keys out of text order, and the
  rebuilding one loses `__proto__` (`RebuiltJson.IndexKeysDisagree`, `RebuiltJson.ProtoLost`, `RebuiltJson.CanonicalisersAgree`).
- `isEffectivelyEmpty` misjudges bodies with a block opening inside a line comment, in both
  directions (`EmptyBody.EffectivelyEmptyMisjudges`); what it answers is exact for bodies that swallow
  nothing (`EmptyBody.EmptyVerdict`), and which line comments mislead it comment by comment
  (`EmptyBody.HarmlessExact`, `EmptyBody.LastCommentExact`). The edit then can lose a bracket
  (`RewriteBalance.HiddenBracketLost`, `RewriteBalance.EditKeepsBalance`).
- A catch block whose line comment contains a closing brace is cut there, and the guard refuses the file
  (`RewriteBalance.CommentBraceRefused`, `RewriteBalance.RewriteShiftsDepth`).
- A file name with a closing brace makes a second rewriting pass edit again
  (`RewriteSettles.BraceReedits`, `RewriteSettles.SettlesExactly`).
- Resetting the throttle timestamp lets two requests go out at once (`Throttle.ResetAllowsNoSpacing`,
  `Throttle.SpacingExact`).
- Stamping replaces the first occurrence of the old digest, which need not be the annotation
  (`ChartAnnotation.EarlierOccurrenceMisleads`, `ChartAnnotation.RestampWritesValue`).
- Raw events are labelled too low after a trial that threw (`RollbackRun.ThrowMislabels`,
  `RollbackRun.LabelsExact`), and the number of fresh rebuilds can then be too small
  (`RollbackRun.RebuildCountTooSmall`, `RollbackRun.RebuildCountExact`).
- The comment in `audit-report.ts` relies on the unique key; without it, or with aggregates that share
  an in-memory key, the two collectors differ (`AuditContiguity.DuplicatePasses`,
  `AuditContiguity.ColonCollision`, `AuditContiguity.CollectorsAgree`, `AuditContiguity.AgreeExactly`).
  The aggregate types listed in the repository (`scripts/bench-v2-live.ts:395`) have no colon, so with
  them no two aggregates share a key (`AuditContiguity.ColonFreeFaithful`).
- A manifest or marker with a pinned `__proto__` service passes although it is not a required service
  (`Promotion.ProtoUnseen`, `Promotion.ServicesClean`).
- A blocked mission stops all planned ones for good (`WarRoom.BlockedIsStuck`, `WarRoom.RunSettlesExactly`).

## Model

| member | source | states |
|---|---|---|
| CanonicalJson.CanonicalInjective | scripts/action-operations-proof.ts:174-184 | Two JSON values print to the same canonical text exactly when they differ only in the order of object keys, at every depth. |
| CanonicalJson.CanonicalParses | scripts/action-operations-proof.ts:174-184 | A parser started on the canonical text, followed by nothing or by any delimiter, returns the key-sorted value and stops exactly where the text ends. |
| CanonicalJson.CanonicalPrintsSortedTree | scripts/action-operations-proof.ts:175-183 | Printing while sorting keys equals sorting the whole tree first and printing it plainly afterwards. |
| CanonicalJson.PrintRoundTrip | scripts/action-operations-proof.ts:174-184 | For any value and any delimited continuation the parser inverts plain printing. |
| CanonicalJson.PrintInjective | scripts/action-operations-proof.ts:183 | Without sorting, equal texts mean equal values, key order included. |
| CanonicalJson.QuotedRoundTrip | scripts/action-operations-proof.ts:180-183 | A string of arbitrary UTF-16 code units, lone surrogates and control characters included, is recovered from its quoted form; the form starts with a quote. |
| CanonicalJson.EscapeRoundTrip | scripts/action-operations-proof.ts:180-183 | Escaping followed by a closing quote is undone by the reader, surrogate pairs being kept and lone surrogates escaped. |
| JsonEscapes.EscapeShortest | scripts/action-operations-proof.ts:180-183 | No text without raw controls and lone surrogates that a JSON reader reads as the string is shorter than its escape, and one that is as short and writes hex digits in lower case is the escape. |
| JsonEscapes.EscapeQualifies | scripts/action-operations-proof.ts:180-183 | The escape itself is such a text: no raw control, no lone surrogate, lower-case hex. |
| JsonEscapes.PlainTextKept | scripts/action-operations-proof.ts:180-183 | A text without quotes, backslashes, controls and surrogates is its own escape. |
| JsonEscapes.EscapeTable | scripts/action-operations-proof.ts:180-183 | The two-character escapes are those of quote, backslash, backspace, form feed, newline, return and tab, and the hex form is four lower-case digits. |
| JsonEscapes.SurrogateTable | scripts/action-operations-proof.ts:180-183 | High and low surrogates are told by the upper six bits of the unit. |
| JsonEscapes.TokenTable | scripts/action-operations-proof.ts:174-184 | Punctuation and the three words are the characters JSON has for them. |
| JsonEscapes.HexTable | scripts/action-operations-proof.ts:180-183 | The reader takes hex digits in either case for their values, and no other character. |
| JsonEscapes.ReaderTable | scripts/action-operations-proof.ts:180-183 | The reader takes the eight two-character escapes of JSON and no other. |
| JsonEscapes.NumberTable | scripts/action-operations-proof.ts:174-184 | Numbers are written with the ten digits, signs, point and exponent letters. |
| CanonicalJson.SameValueSortsAlike | scripts/action-operations-proof.ts:178-179 | Values equal up to key order have the same key-sorted tree. |
| CanonicalJson.SortsAlikeSameValue | scripts/action-operations-proof.ts:178-179 | Values with the same key-sorted tree are equal up to key order. |
| Ordering.SortAscends | scripts/action-operations-proof.ts:178-179 | Sorting entries with pairwise different keys gives a strictly ascending list. |
| Ordering.AscendingUnique | scripts/action-operations-proof.ts:178-179 | A strictly ascending list is determined by its set of elements. |
| Ordering.SortOrderIndependent | scripts/action-operations-proof.ts:178-179 | Lists with the same elements sort alike, so the order in which keys or files were enumerated is forgotten. |
| Ordering.LessIsLexicographic | scripts/action-operations-proof.ts:178-179 | A key comes before another exactly when it is a proper prefix or has the smaller unit at the first difference. |
| ArtifactHashes.VerifyHashes | scripts/action-operations-proof.ts:608-622 | No failure is reported exactly when both artifacts carry the hash of their body and the metadata lists that hash under the artifact path; each failure appears exactly for its own cause. |
| ArtifactHashes.VerifiedArtifactHoldsValue | scripts/action-operations-proof.ts:505-508 | Unless the two bodies collide, an artifact written for one value passes against the reference recorded for another exactly when the values agree up to key order. |
| ArtifactHashes.ReferenceInjective | scripts/action-operations-proof.ts:618 | Under one path, two references are equal only for equal hashes. |
| ArtifactHashes.ReferenceText | scripts/action-operations-proof.ts:618 | A reference is the path, the mark :sha256: and the hash, as text. |
| ArtifactHashes.ArtifactText | scripts/action-operations-proof.ts:505-508 | An artifact body is the canonical text and a newline, and its hash is that of both together. |
| RebuiltJson.SortKeys | scripts/authority-closure-proof.ts:501-512 | The recursive rebuild returns the key-sorted tree as JavaScript enumerates it: array indices first in numeric order, then the other keys, `__proto__` lost. |
| RebuiltJson.FillObject | scripts/authority-closure-proof.ts:504-509 | Assigning the sorted keys one after the other into an empty object ends in that enumeration order. |
| RebuiltJson.PutKeepsOrder | scripts/authority-closure-proof.ts:505-508 | Assigning one more new key turns the enumeration order of the keys so far into that of all of them. |
| RebuiltJson.PutExact | scripts/authority-closure-proof.ts:501-512 | An assignment sets its property, in place of any value it had, and touches no other; assigning `__proto__` changes nothing. |
| RebuiltJson.IndexTable | scripts/authority-closure-proof.ts:501-512 | Array indices are the canonical numerals up to 4294967294: not a padded, signed or empty text, and not the next number. |
| RebuiltJson.EnumerationShape | scripts/authority-closure-proof.ts:505-509 | After any assignments the object lists its array indices first, in increasing numeric order, and no `__proto__`. |
| RebuiltJson.NumeralInjective | scripts/authority-closure-proof.ts:505-509 | Two canonical decimal numerals with the same number are the same text, so numeric key order has no ties. |
| RebuiltJson.CanonicalisersAgree | scripts/authority-closure-proof.ts:496-512 | The rebuilding canonicaliser prints the same text as the direct one exactly when, at every depth, the text-sorted keys are already in enumeration order and none is `__proto__`. |
| RebuiltJson.OrdinaryKeysKeepOrder | scripts/authority-closure-proof.ts:496-512 | Values whose keys are neither integer-like nor `__proto__` meet that condition, so on them the two canonicalisers agree. |
| RebuiltJson.IndexKeysDisagree | scripts/authority-closure-proof.ts:506-508 | A concrete object with the keys 9 and 10 on which the two canonicalisers print different texts. |
| RebuiltJson.ProtoLost | scripts/authority-closure-proof.ts:506-508 | An object with only a `__proto__` key and the empty object get the same text from the rebuilding canonicaliser and different ones from the direct one. |
| RebuiltJson.RebuiltSorts | scripts/authority-closure-proof.ts:501-512 | Sorting the rebuilt value by key gives the sorted original without its `__proto__` entries: nothing else is lost or added. |
| RebuiltJson.RebuiltIdempotent | scripts/authority-closure-proof.ts:501-512 | Rebuilding a rebuilt value changes nothing. |
| RebuiltJson.RebuiltTextInjective | scripts/authority-closure-proof.ts:497-499 | Two values get the same text exactly when, `__proto__` entries aside, they agree up to key order. |
| Balance.IsBalanced | scripts/apply-besteffort-fixes.ts:114-172 | For every text the one-pass loop answers true exactly when the bracket deltas over the code characters of the recursive lexer sum to zero. |
| Balance.LexPartitions | scripts/apply-besteffort-fixes.ts:114-172 | The lexer splits a text into tokens without losing, adding or reordering a character. |
| Balance.RunCounts | scripts/apply-besteffort-fixes.ts:120-170 | From code, or inside a line comment, block comment, string or template, the lookahead-free automaton adds exactly the deltas the lexer still counts ahead. |
| Balance.RunConcat | scripts/apply-besteffort-fixes.ts:120-170 | Reading a text in two parts is reading it whole, wherever it is cut, also inside a comment mark or an escape. |
| Balance.BalancedByAutomaton | scripts/apply-besteffort-fixes.ts:114-172 | The lookahead-free automaton ends at the depth the lexer computes. |
| Balance.BracketTable | scripts/apply-besteffort-fixes.ts:114-172 | Exactly the three opening brackets count up, exactly the three closing ones down, and exactly the three quotes open a literal. |
| EmptyBody.EmptyVerdict | scripts/apply-besteffort-fixes.ts:76-83 | When no opening in a line comment before the first code is closed behind its comment, a body counts as empty exactly when it is complete comments and white space and removing block comments leaves each line comment one. |
| EmptyBody.EffectivelyEmptyIsExact | scripts/apply-besteffort-fixes.ts:76-83 | Then the answer is right exactly when the body holds code or its line comments stay comments. |
| EmptyBody.HarmlessExact | scripts/apply-besteffort-fixes.ts:76-83 | For one line comment ended by its newline: the answer is right before every harmless continuation exactly when removing block comments leaves the comment a line comment and no opening in it unclosed. |
| EmptyBody.HarmfulWitness | scripts/apply-besteffort-fixes.ts:76-83 | For every other line comment a continuation, itself harmless, on which the answer is wrong. |
| EmptyBody.LastCommentExact | scripts/apply-besteffort-fixes.ts:76-83 | A line comment at the end of the body is answered rightly exactly when removing block comments leaves it one. |
| EmptyBody.OpenSwallows | scripts/apply-besteffort-fixes.ts:79 | Behind an opening left open in a line comment, text is removed up to its first close. |
| EmptyBody.EffectivelyEmptyMisjudges | scripts/apply-besteffort-fixes.ts:76-83 | Harmful comments mislead both ways: a body that calls a function counts as empty, a lone line comment does not. |
| EmptyBody.KeptCharacter | scripts/apply-besteffort-fixes.ts:78-82 | A first character that starts no removable comment survives: the body is empty exactly when that character is white space and the rest is empty. |
| CatchRewrite.MatchComplete | scripts/apply-besteffort-fixes.ts:187 | Every text of the shape of the pattern is matched, whatever follows, and is cut into exactly its own pieces. |
| CatchRewrite.MatchSound | scripts/apply-besteffort-fixes.ts:187 | Whatever is matched has the shape of the pattern and stands at the start of the text. |
| CatchRewrite.RewriteCatches | scripts/apply-besteffort-fixes.ts:189-208 | The loop of the global replace returns the rewritten text and the number of replaced matches, both defined by recursion over the match positions. |
| ReportText.DecimalIsNumeral | scripts/apply-besteffort-fixes.ts:196-203 | The line number is written as its decimal numeral: digits whose value, read from the left, is the number, without leading zero. |
| ReportText.LineCounts | scripts/apply-besteffort-fixes.ts:86-88 | The line of an offset is one more than the number of newlines before it, as a set of positions. |
| ReportText.EditReportsLine | scripts/apply-besteffort-fixes.ts:189-203 | In every edit of every file, the text between the last colon and the end of the call is the numeral of the line on which the match starts. |
| ReportText.DocumentedEdit | scripts/apply-besteffort-fixes.ts:195-203 | A bound, indented catch block with a best-effort comment on line 12, and the exact text it is replaced by. |
| ReportText.BareEdit | scripts/apply-besteffort-fixes.ts:195-203 | An unbound, unindented catch block, and the exact text it is replaced by. |
| ReportText.IntentExact | scripts/apply-besteffort-fixes.ts:197 | The intent comment is kept exactly when best-effort stands in the body, in upper or lower case letters, with no word character before or behind it. |
| ReportText.IntentIsWord | scripts/apply-besteffort-fixes.ts:197 | Examples of both: alone, in capitals, as part of a longer word, without its hyphen. |
| ReportText.ClassBounds | scripts/apply-besteffort-fixes.ts:187 | Where the character classes of the pattern begin and end. |
| ReportText.SpaceTable | scripts/apply-besteffort-fixes.ts:187 | The white space of the pattern, character by character. |
| RewriteBalance.BlankBodyRun | scripts/apply-besteffort-fixes.ts:76-83 | Reading a body of comments and white space adds no depth and ends in code or in an open line comment. |
| RewriteBalance.HeadRun | scripts/apply-besteffort-fixes.ts:187 | Read from code position, a match up to its opening brace returns to the depth it started from. |
| RewriteBalance.ReplacementRun | scripts/apply-besteffort-fixes.ts:199-203 | Read from code position, a replacement ends in code one level lower: whatever the body said, it closes one bracket more than it opens. |
| RewriteBalance.OrdinaryNameTransparent | scripts/apply-besteffort-fixes.ts:201 | A base name without single quote and backslash stays inside the quoted string it is pasted into. |
| RewriteBalance.RunShift | scripts/apply-besteffort-fixes.ts:120-170 | The automaton only ever adds to the depth: the starting depth changes neither the states nor the deltas. |
| RewriteBalance.EditKeepsBalance | scripts/apply-besteffort-fixes.ts:189-208 | At a code position, whatever the body, one edit keeps automaton state and depth exactly when the replaced body ends in code and its brackets are balanced. |
| RewriteBalance.HarmlessBodyFlat | scripts/apply-besteffort-fixes.ts:76-83 | A body that counts as empty, with nothing swallowed, holds no brackets in code and ends in code or in a line comment. |
| RewriteBalance.RewriteShiftsDepth | scripts/apply-besteffort-fixes.ts:189-208 | Replacing any number of matches that start in code, and end in code or in a line comment with nothing but quiet text left on its line, keeps the final state of the whole text and lowers its depth by exactly the brackets of the replaced bodies and one for each closing brace a comment hid. |
| RewriteBalance.RewriteKeepsVerdict | scripts/apply-besteffort-fixes.ts:189-208 | Hence the rewritten file has the bracket sum of the original, less what the edits hide, and the same one exactly when they hide nothing. |
| RewriteBalance.HarmlessHideBraces | scripts/apply-besteffort-fixes.ts:189-208 | When the replaced bodies swallow nothing, the edits hide exactly one brace for each body that was cut short inside one of its line comments. |
| RewriteBalance.CommentBraceRefused | scripts/apply-besteffort-fixes.ts:187-208 | A balanced file whose catch comment mentions a brace pair: the match stops at that brace, and the rewritten file is unbalanced and refused. |
| RewriteBalance.ProcessCatches | scripts/apply-besteffort-fixes.ts:346-379 | The guard in front of the write: no change is reported exactly for no edit, the fixed content is the rewritten text, and a file with readable edits is refused exactly when its bracket sum is not what the edits hide and the bypass is off. |
| RewriteBalance.HiddenBracketLost | scripts/apply-besteffort-fixes.ts:190-191 | A match that starts and ends in code and counts as empty, but holds a bracket behind a line comment, loses it in the edit. |
| RewriteSettles.SecondPassEditsNothing | scripts/apply-besteffort-fixes.ts:187-208 | Over its own output a second pass finds nothing to edit and returns it unchanged, for every text, when the base name has no closing brace. |
| RewriteSettles.NoNewMatch | scripts/apply-besteffort-fixes.ts:187-208 | Rewriting what follows an unmatched position never makes that position match. |
| RewriteSettles.ReportedNotEmpty | scripts/apply-besteffort-fixes.ts:199-203 | The body an edit leaves behind never counts as empty. |
| RewriteSettles.ReportedText | scripts/apply-besteffort-fixes.ts:199-203 | The replacement is, character for character, the text of a catch block with the report call as its body. |
| RewriteSettles.CutText | scripts/apply-besteffort-fixes.ts:199-203 | With a closing brace in the base name, that block ends at it and the rest of the report stands behind. |
| RewriteSettles.SwallowedThen | scripts/apply-besteffort-fixes.ts:187 | When the last brace of a text belongs to a match of it, a scan of the text and more behind finds the matches of both. |
| RewriteSettles.FirstEdit | scripts/apply-besteffort-fixes.ts:189-208 | The rewritten text agrees with the original up to and including the first closing brace of the first replaced match, or everywhere. |
| RewriteSettles.BraceReedits | scripts/apply-besteffort-fixes.ts:201 | With exactly one closing brace in the base name, whatever stands around it, a second pass over a file of two catch blocks edits again. |
| RewriteSettles.SettlesExactly | scripts/apply-besteffort-fixes.ts:187-208 | Second passes edit nothing on every file exactly when the base name has no closing brace or, on every line and indentation, the report behind the first one holds no empty catch block and its last brace belongs to a match. |
| Throttle.ReachableInvariant | scripts/benchmark-topology.ts:200-238 | Every state of every interleaving of callers satisfies the invariant: ticket order, clock order, a current timestamp and the spacing of grants. |
| Throttle.RunsKeepInvariant | scripts/benchmark-topology.ts:200-238 | From any state that satisfies the invariant, every run of steps keeps it. |
| Throttle.MutualExclusion | scripts/benchmark-topology.ts:210-217 | At most one caller is between reading and writing the shared timestamp. |
| Throttle.GrantsInOrder | scripts/benchmark-topology.ts:205-217 | A caller is granted only after everyone who arrived before it, and not earlier in time. |
| Throttle.GrantsSpaced | scripts/benchmark-topology.ts:211-216 | Between the grants of callers i and j at least j - i delays pass, less one for each timestamp reset between the first write and the last read. |
| Throttle.ConsecutiveSpacing | scripts/benchmark-topology.ts:211-216 | In every run two consecutive grants are a full delay apart when no reset falls between the write of the first and the read of the second. |
| Throttle.ReadSpacing | scripts/benchmark-topology.ts:211-215 | The sleep a caller computes lasts until its predecessor's grant plus the delay exactly when no reset has happened since that grant, or the delay has passed already, or the grant came before the clock was positive. |
| Throttle.SpacingExact | scripts/benchmark-topology.ts:204-238 | From the read on, every continuation of every run grants the caller a delay after its predecessor exactly under that condition. |
| Throttle.GrantsInWindow | scripts/benchmark-topology.ts:204-238 | The number of grants in a time window is bounded by the window over the delay plus one, plus one for each reset seen. |
| Throttle.RequestsBounded | scripts/benchmark-topology.ts:230-239 | In every run the throttle calls are the clients plus the resets, and resets are at most three for each client. |
| RetryTime.RetriesTakeTime | scripts/benchmark-topology.ts:233-239 | In every run a client that has come back from k backoffs has spent at least 1000 k (k + 1) ms since it arrived. |
| RetryTime.ThreeRetriesExactly | scripts/benchmark-topology.ts:233-239 | There is a run in which a client retries three times and has spent exactly 12000 ms. |
| RetryTime.RunKeepsDue | scripts/benchmark-topology.ts:233-239 | Over any run, the time at which a client may go on, less the backoffs of its retries so far, never decreases. |
| Throttle.FirstCallerProgresses | scripts/benchmark-topology.ts:204-218 | The lock never deadlocks: from any state the first caller not yet granted can be granted by at most three steps. |
| Throttle.ResetAllowsNoSpacing | scripts/benchmark-topology.ts:233-239 | For every delay there is a run, with every timer on time, in which two callers whose backoffs end together both reset the timestamp and are granted at the very same moment. |
| Throttle.RateLimiter.Enter | scripts/benchmark-topology.ts:204-209 | Joining the promise chain is the arrival step of the state machine. |
| Throttle.RateLimiter.ReadTimestamp | scripts/benchmark-topology.ts:210-215 | One reading of clock and timestamp gives a sleep that ends no earlier than the last timestamp plus the delay, and is the read step. |
| Throttle.RateLimiter.WriteTimestamp | scripts/benchmark-topology.ts:216-217 | Taking the timestamp and releasing the next caller is the write step. |
| Throttle.RateLimiter.ResetAndEnter | scripts/benchmark-topology.ts:237-238 | Zeroing the timestamp and joining again is the resume step of the retry loop. |
| Utf8.DecodesExactly | scripts/chart-content-digest.ts:44-45 | The re-encoding test accepts a file exactly when its bytes encode some text, and then only one. |
| ChartTexts.ScalarWellFormed | scripts/chart-content-digest.ts:44-45 | The bytes of a scalar value are one of the well-formed sequences of table 3-7 of the Unicode Standard. |
| ChartTexts.WellFormedScalar | scripts/chart-content-digest.ts:44-45 | And every such sequence is the bytes of a scalar value. |
| ChartTexts.LineExact | scripts/chart-content-digest.ts:7 | The pattern matches exactly where the label and 64 lower-case hex digits stand between line ends. |
| ChartTexts.ChartPathExact | scripts/chart-content-digest.ts:42 | Masked are exactly the files named Chart.yaml, at the root or behind a slash. |
| ChartTexts.PreimageStarts | scripts/chart-content-digest.ts:81 | Everything hashed starts with the versioned prefix and a zero byte. |
| ChartAnnotation.FindExact | scripts/chart-content-digest.ts:7-51 | The annotation is found at an offset exactly when the text has no carriage return, a match stands there and none anywhere else. |
| ChartAnnotation.MatchesDisjoint | scripts/chart-content-digest.ts:7-48 | Two matches never overlap, so collecting them left to right misses none. |
| ChartAnnotation.RunIsValueOrOutside | scripts/chart-content-digest.ts:7-52 | Any run of 64 hex digits is the value of an annotation line or does not touch the line. |
| ChartAnnotation.OverwriteKeepsFind | scripts/chart-content-digest.ts:113-117 | Exchanging any 64 hex digits for 64 others neither creates, moves nor destroys the annotation. |
| ChartAnnotation.MaskIdempotent | scripts/chart-content-digest.ts:52-56 | Masking a masked text changes nothing. |
| ChartAnnotation.MaskAlike | scripts/chart-content-digest.ts:52-56 | Two texts mask alike exactly when one is the other with the digits of the annotation exchanged. |
| ChartAnnotation.RestampWritesValue | scripts/chart-content-digest.ts:116 | Replacing the first occurrence of the old value writes the annotation exactly when that value does not occur before it or is the new one, and then touches nothing else. |
| ChartAnnotation.EarlierOccurrenceMisleads | scripts/chart-content-digest.ts:116 | A text whose old value also stands on an earlier line keeps its old annotation, for every new digest. |
| ChartPreimage.MaskAtByteOffset | scripts/chart-content-digest.ts:52-55 | Filling 64 bytes at the UTF-8 offset of the value is the encoding of the masked text. |
| ChartPreimage.FillZeros | scripts/chart-content-digest.ts:54-55 | The in-place fill changes exactly 64 bytes of the copy. |
| ChartPreimage.ChartBytesForDigest | scripts/chart-content-digest.ts:42-57 | Every file but a Chart.yaml is hashed as it is; a Chart.yaml is masked, or refused when it is no text, has a carriage return or not exactly one annotation. |
| ChartPreimage.BigEndianRoundTrip | scripts/chart-content-digest.ts:59-70 | A number below 256^k is recovered from its k big-endian bytes. |
| ChartPreimage.RecordsRoundTrip | scripts/chart-content-digest.ts:83-90 | The length-prefixed records can be read back into the list of files. |
| ChartDigest.CollectFiles | scripts/chart-content-digest.ts:27-40 | The recursive walk that pushes onto one list returns the files below the directory, or refuses a symbolic link or special entry. |
| ChartDigest.ComputeChartContentDigest | scripts/chart-content-digest.ts:72-92 | Feeding the hash record by record hashes the whole pre-image, and refuses exactly what the pre-image refuses. |
| ChartRefusal.RefusedExactly | scripts/chart-content-digest.ts:13-92 | For slash-free names, a chart is refused exactly when a special entry is reached, a file lies under a component that is empty, a dot, two dots or holds a backslash, there is no root Chart.yaml, or some file cannot be masked or is too large; the path error is given exactly in the first two cases. |
| ChartRefusal.CollectRefuses | scripts/chart-content-digest.ts:26-39 | The walk fails exactly when a special entry is reached. |
| ChartRefusal.BadExact | scripts/chart-content-digest.ts:13-24 | Some collected path is refused exactly when a file lies under a bad component. |
| ChartRefusal.MasksRefuse | scripts/chart-content-digest.ts:81-90 | Feeding the files fails exactly when one of them cannot be masked or has a length out of range. |
| ChartDigest.PreimageParses | scripts/chart-content-digest.ts:82-91 | The pre-image starts with the fixed prefix and decodes to exactly the ordered list of paths and masked contents. |
| ChartDigest.PreimageInjective | scripts/chart-content-digest.ts:82-91 | Equal pre-images mean equal ordered lists of path and masked content. |
| ChartListing.SameListingCollects | scripts/chart-content-digest.ts:27-40 | The same tree listed in another order at any level gives the same set of files, or fails alike. |
| ChartListing.ListingOrderIrrelevant | scripts/chart-content-digest.ts:72-91 | The pre-image, or the refusal, does not depend on the order in which directories are listed. |
| ChartListing.CollectDistinct | scripts/chart-content-digest.ts:27-40 | In a tree whose directories have distinct slash-free names no path is collected twice. |
| ChartListing.HashedFilesAscend | scripts/chart-content-digest.ts:76-78 | Files are hashed in strictly ascending byte order of their paths. |
| ChartListing.PreimageBindsFileSet | scripts/chart-content-digest.ts:72-91 | Two charts have the same pre-image exactly when they hold the same set of paths with the same masked contents. |
| ChartTree.TreeCollected | scripts/chart-content-digest.ts:27-40 | The collected files are exactly those found by walking the tree along a path. |
| ChartTree.PreimageBindsTree | scripts/chart-content-digest.ts:72-91 | Two charts have the same pre-image exactly when their trees hold files under the same paths with contents that mask alike; neither listing order nor empty directories matter. |
| ChartTree.ContentsAlike | scripts/chart-content-digest.ts:42-57 | Two contents mask alike exactly when they are equal or, for a Chart.yaml, differ only in the digits of the annotation. |
| ChartStamp.Chart.Verify | scripts/chart-content-digest.ts:106-111 | Verification answers with the digest, a mismatch or the refusal that the specification gives for the entries as they are. |
| ChartStamp.Chart.Stamp | scripts/chart-content-digest.ts:113-118 | Stamping rewrites Chart.yaml on success and leaves the directory unchanged on any failure. |
| ChartStamp.DigestIgnoresValue | scripts/chart-content-digest.ts:42-92 | Exchanging the digits of the annotation changes neither pre-image nor digest. |
| ChartStamp.StampThenVerify | scripts/chart-content-digest.ts:106-118 | Stamp followed by verify succeeds with the stamped digest exactly when the old value does not occur before the annotation, or already was that digest. |
| ChartStamp.StampTwice | scripts/chart-content-digest.ts:113-118 | Under that condition a second stamp changes nothing and returns the same digest. |
| Campaign.ValidateCampaignObservation | scripts/design-partner-faults.ts:178-244 | The validator with its counting and checking loops returns the failures of the specification, or the single failure its caller reports when an access throws. |
| Campaign.CountValues | scripts/design-partner-faults.ts:172-176 | The counts are those of the multiset of values. |
| Campaign.CampaignClean | scripts/design-partner-faults.ts:178-244 | It returns nothing exactly when schema, dates and driver are right, each fault point occurs once and no other, and the entries are the declared scenarios, once each, every one as defined, with an outcome query where one is required. |
| CampaignCauses.CodesExact | scripts/design-partner-faults.ts:178-244 | Every code is reported exactly for its own cause, told by the fields of the observation without counts; an access that throws leaves the single code of the caller. |
| Campaign.NamesOnce | scripts/design-partner-faults.ts:206-212 | No entry id occurs twice exactly when every id is counted at most once. |
| Rollback.AggregateObservations | scripts/benchmark-governed-rollback.ts:212-392 | The nested loops over trials, entries and definitions, with the validator called on each observation and shared records updated, return the failures, metrics and totals of a specification by recursion over the trials. |
| Rollback.AggregateTrial | scripts/benchmark-governed-rollback.ts:240-343 | One trial contributes the failures of the validator, of its header and of its entries, and is added to the records. |
| Rollback.CheckHeader | scripts/benchmark-governed-rollback.ts:249-286 | The header checks report driver, topology, each missing role, and process identities that are absent or not pairwise different. |
| Rollback.SizeIsLength | scripts/benchmark-governed-rollback.ts:283 | A list has as many distinct members as positions exactly when no two positions agree. |
| Rollback.TallyScenarios | scripts/benchmark-governed-rollback.ts:288-342 | One trial turns the records of the trials before it into the records that include it, with its failures and denied writes. |
| Rollback.TallyEntry | scripts/benchmark-governed-rollback.ts:291-341 | One entry adds its own failures, record update and denied writes, with the early exits for malformed, undeclared and ill-typed entries. |
| Rollback.CloseDefinitions | scripts/benchmark-governed-rollback.ts:345-375 | The closing loop reports the per-definition failures and sums the three totals. |
| RollbackCounts.MetricsExact | scripts/benchmark-governed-rollback.ts:317-330 | For trials of any kind, each counter of a scenario is the number of (trial, position) pairs whose entry is well typed, has its id and shows that defect; writes, queries and duplicates are sums over all entries; the latency is an attained upper bound, or 0. |
| RollbackCounts.TotalsExact | scripts/benchmark-governed-rollback.ts:364-392 | The totals are the numbers of such places over all declared scenarios, the sum of every excess over its own definition, and the sum of the writes of scenarios that expect none. |
| RollbackCauses.FailuresExact | scripts/benchmark-governed-rollback.ts:212-392 | For trials of any kind, every failure is listed exactly for its own cause: a place of some trial that shows it, a header field of the numbered trial, or a count over all trials. |
| RollbackVerdict.VerdictExact | scripts/benchmark-governed-rollback.ts:377 | PROVEN is returned exactly when the repetition count is valid and met and every single trial is complete: well formed, each declared scenario once and nothing else, all perfect, with an outcome query of its own where one is required. No counter occurs in the condition. |
| RollbackVerdict.CountersAlone | scripts/benchmark-governed-rollback.ts:240-362 | The only failures are the validator's exactly when every trial is clean and holds every declared scenario, by pigeonhole over the counters, and the outcome queries suffice in total. |
| RollbackVerdict.PooledQueries | scripts/benchmark-governed-rollback.ts:359-361 | Complete trials have at least as many outcome queries as trials for every scenario that requires them. |
| RollbackVerdict.PooledTestNeverDecides | scripts/benchmark-governed-rollback.ts:359-361 | The test on the total number of outcome queries is never the only failure. |
| RollbackVerdict.AllHold | scripts/benchmark-governed-rollback.ts:345-349 | Pigeonhole: as many holders of a scenario as trials means that every trial holds it. |
| RollbackVerdict.CleanTrialMetrics | scripts/benchmark-governed-rollback.ts:317-330 | Over clean trials the counters of a scenario are the number of trials that hold it, times its expected writes where writes are counted. |
| RollbackVerdict.ProvenMeans | scripts/benchmark-governed-rollback.ts:345-377 | PROVEN implies that every trial holds every declared scenario exactly once, with an outcome query where required, that its writes total the repetitions times the expected count, and that it has no duplicate write. |
| RollbackVerdict.ProvenTotals | scripts/benchmark-governed-rollback.ts:364-391 | PROVEN implies that duplicate, denied, unverified and unpersisted totals are zero and that the trial total is repetitions times scenarios. |
| RollbackVerdict.MetricsAdditive | scripts/benchmark-governed-rollback.ts:317-330 | Metrics of concatenated runs add up (the latency takes the maximum). |
| RollbackVerdict.MetricsPermute | scripts/benchmark-governed-rollback.ts:240-343 | Reordering the trials changes no metric. |
| RollbackVerdict.VerdictPermutes | scripts/benchmark-governed-rollback.ts:212-392 | Reordering the trials changes neither the verdict nor the per-scenario metrics. |
| RollbackRun.PlanSplits | scripts/benchmark-governed-rollback.ts:200-210 | For every count of at least three the plan numbers the repetitions and splits them into exactly three non-empty consecutive blocks, in order, whose sizes differ by at most one. |
| RollbackRun.RebuildIsBlock | scripts/benchmark-governed-rollback.ts:208 | A repetition is in a block exactly when it lies between the two ends of the block. |
| RollbackRun.WholePlanUsesThree | scripts/benchmark-governed-rollback.ts:559-564 | A whole plan uses exactly the environments 0, 1 and 2. |
| RollbackRun.RunBenchmark | scripts/benchmark-governed-rollback.ts:468-567 | The run loop over the plan returns the report of the specification: events, rebuild count and verdict, with failures from source, plan, trials and aggregation. |
| RollbackRun.PassedRun | scripts/benchmark-governed-rollback.ts:468-567 | A passed run retained every planned observation without problem, labelled each by its own repetition, used three fresh environments, and its observations meet the PROVEN specification. |
| RollbackRun.LabelsExact | scripts/benchmark-governed-rollback.ts:541-550 | Raw events carry the repetition their observation came from exactly when no observation was retained after a trial that threw. |
| RollbackRun.ThrowMislabels | scripts/benchmark-governed-rollback.ts:541-550 | Three repetitions of which the first throws: the reported events carry the repetitions 1 and 2, the observations came from 2 and 3. |
| RollbackRun.RebuildCountExact | scripts/benchmark-governed-rollback.ts:559-564 | The reported number of rebuilds never exceeds the number of environments that retained an observation, and is that number exactly when the observations would not fit into one block less. |
| RollbackRun.RebuildCountTooSmall | scripts/benchmark-governed-rollback.ts:559-564 | Six repetitions of which every other one throws: observations come from three environments and two are reported. |
| RollbackRun.PlanDistinct | scripts/benchmark-governed-rollback.ts:206-209 | No two entries of a plan carry the same repetition. |
| RunCauses.ReportFailuresExact | scripts/benchmark-governed-rollback.ts:468-567 | Every failure of the report comes from the source, the plan, the numbered trial that threw, a retained artifact, or the trials, and each of these is listed. |
| RunCauses.NothingRetained | scripts/benchmark-governed-rollback.ts:125-158 | Without a retained observation the run fails with an empty report. |
| WarRoom.Choose | scripts/auto-progress-war-room.js:32-41 | The first of the missions with the best priority (running, blocked, planned) is chosen, and none exactly when none is open. |
| WarRoom.ChoosesBest | scripts/auto-progress-war-room.js:32-41 | The chosen mission is running if any is, otherwise blocked if any is, otherwise planned. |
| WarRoom.DataFile.Advance | scripts/auto-progress-war-room.js:43-115 | One invocation updates missions, log, agents and project in place as the specification step does. |
| WarRoom.InvokeWorks | scripts/auto-progress-war-room.js:60-105 | With distinct ids each invocation lowers the work measure by exactly one while it is positive, and otherwise leaves it at zero. |
| WarRoom.RunCountsDown | scripts/auto-progress-war-room.js:60-105 | Over any number of invocations the work left is a countdown and the goal of each mission never changes. |
| WarRoom.RunSettlesExactly | scripts/auto-progress-war-room.js:32-105 | All missions rest at their goals after exactly that many invocations and not before. |
| WarRoom.FreshMissionsFinish | scripts/auto-progress-war-room.js:60-105 | Fresh planned missions need exactly three invocations each: after that all are done, and before that not all. |
| WarRoom.NeverRegress | scripts/auto-progress-war-room.js:66-85 | No status ever goes back a stage. |
| WarRoom.BlockedIsStuck | scripts/auto-progress-war-room.js:32-41 | With a blocked and no running mission no invocation ever changes a status; each only appends another warning. |
| WarRoomTimes.TimesExact | scripts/auto-progress-war-room.js:66-87 | Over any run a start or completion time, once set, stays; if unset it becomes the time of the very invocation that starts or completes the mission, and is set by no other. |
| WarRoomTimes.InvokeExact | scripts/auto-progress-war-room.js:43-105 | One invocation field by field: only the chosen mission changes, and one log entry with its level is appended; completion needs two earlier entries of the mission. |
| WarRoomTimes.HeartbeatExact | scripts/auto-progress-war-room.js:60-92 | Only the first agent with the id is seen, and only its heartbeat changes. |
| AuditContiguity.ScanGroup | scripts/audit-report.ts:597-603 | The early-exit scan of a sorted group answers whether all neighbours step by one. |
| AuditContiguity.InMemoryContiguity | scripts/audit-report.ts:588-608 | Grouping, sorting and scanning with the flag and both early exits answers whether every key group of the log steps by one. |
| AuditContiguity.GroupAgrees | scripts/audit-report.ts:449-460 | Neighbours of the sorted group step by one exactly when max - min + 1 is the count and no number occurs twice. |
| AuditContiguity.SqlVerdict | scripts/audit-report.ts:449-463 | The query counts no gap exactly when max - min + 1 is the count in the group of every event. |
| AuditContiguity.GroupsDistinct | scripts/audit-report.ts:443-445 | The unique key of the table holds exactly when no group repeats a sequence number. |
| AuditContiguity.ColonFreeFaithful | scripts/audit-report.ts:591 | Aggregate types without a colon never make two aggregates share a key. |
| AuditContiguity.CollectorsAgree | scripts/audit-report.ts:588-608 | With faithful keys the in-memory verdict is the SQL verdict together with uniqueness, so on a log that keeps the unique key the two collectors always agree. |
| AuditContiguity.AgreeExactly | scripts/audit-report.ts:588-608 | For any set of aggregates, the collectors agree on every log of them that keeps the unique key exactly when no two of them share an in-memory key. |
| AuditContiguity.CollisionPasses | scripts/audit-report.ts:591 | Any two aggregates that share a key, one event each, pass the query and fail in memory. |
| AuditContiguity.ColonCollision | scripts/audit-report.ts:591 | Two aggregates with different types and ids that share a key. |
| AuditContiguity.DuplicatePasses | scripts/audit-report.ts:449-460 | Without the unique key a concrete log passes the query and fails in memory. |
| Rotation.ParseArgs | scripts/commander-rotate.ts:222-283 | The loop over the mutable locals returns what a recursive parser over the remaining arguments returns, errors included. |
| Rotation.ParsedArgsSound | scripts/commander-rotate.ts:234-270 | Every successful parse names a variable that is no flag, and a confirmation carries an id that is no long flag. |
| RotationArguments.ParseExact | scripts/commander-rotate.ts:222-283 | Parsing succeeds exactly on lines whose flags are known, whose confirmations have an id and that name one variable; then each switch is set exactly if its flag stands on the line and is no id, and action and id come from the last flag that sets them. |
| RotationArguments.CommandLine | scripts/commander-rotate.ts:230-241 | The same for a whole command line, with or without the separator, from an unaudited and unforced dry run. |
| RotationArguments.RefusalHasCause | scripts/commander-rotate.ts:244-269 | Every refusal names a flag, a missing id or an extra argument that is on the line, or the missing name. |
| RotationArguments.OutcomeExact | scripts/commander-rotate.ts:426-526 | Which invocations end at once with which exit code, and which entry the others append, told by the parsed line, the published names and the ledger. |
| RotationArguments.AloneExact | scripts/commander-rotate.ts:426-577 | Run alone, the steps of an invocation end with the exit code of its checks and the ledger unchanged, or with its own entry and code 0, or code 2 when the ledger cannot be written. |
| Rotation.RunsKeepInvariant | scripts/commander-rotate.ts:426-539 | Over any interleaving of launch, check and append steps the invariant holds: confirmations are preceded by attempts and every entry belongs to one exited, audited invocation. |
| Rotation.ConfirmedAfterAttempt | scripts/commander-rotate.ts:480-519 | In every interleaving every confirmed entry is preceded by an attempt entry with the same variable and rotation id. |
| Rotation.OneEntryPerAuditedSuccess | scripts/commander-rotate.ts:476-539 | An invocation owns exactly one ledger entry if it was audited and exited with 0, and none otherwise. |
| Rotation.LedgerGrows | scripts/commander-rotate.ts:327-374 | No step removes, changes or reorders an entry. |
| Rotation.AuditLedger.Invoke | scripts/commander-rotate.ts:426-577 | Run alone, an invocation exits from its checks with the ledger unchanged, or appends exactly its own entry when the ledger is writable. |
| WorkerPool.TakenOnce | scripts/capacity-baseline.ts:112-138 | In every interleaving no request index is taken twice, and latencies lie between completed and completed plus failed. |
| WorkerPool.FinishedPool | scripts/capacity-baseline.ts:102-141 | When all workers have stopped, every index was taken exactly once, completed plus failed is the total, latencies lie between completed and the total, and the run took two steps a request and one a worker. |
| WorkerPool.RepliesCounted | scripts/capacity-baseline.ts:104-137 | In every run completed is the number of replies that succeeded, failed that of the others, and a latency was recorded for every reply that did not throw. |
| WorkerPool.SomeStepEnabled | scripts/capacity-baseline.ts:114-138 | Until all workers have stopped some step is possible. |
| WorkerPool.RunsAreFinite | scripts/capacity-baseline.ts:114-141 | No interleaving is longer than two steps a request and one a worker. |
| WorkerPool.LoadTest.PopNext | scripts/capacity-baseline.ts:116-117 | Popping takes the last index of the shared queue, or stops the worker, and is the pop step. |
| WorkerPool.LoadTest.Record | scripts/capacity-baseline.ts:120-137 | A reply updates latencies, completed and failed as the return step does. |
| Fairness.CauchySchwarz | scripts/bench-tenant-concurrency.ts:54-56 | The squared sum is at most the count times the sum of squares, with equality exactly when all members are equal. |
| Fairness.SquaresBelowSquare | scripts/bench-tenant-concurrency.ts:54-56 | For non-negative members the sum of squares is at most the square of the sum. |
| Fairness.FairnessBounds | scripts/bench-tenant-concurrency.ts:44-57 | For n tenants with non-negative means, not all zero, the index lies between 1/n and 1 and is 1 exactly when all means are equal. |
| Fairness.FairnessUndefined | scripts/bench-tenant-concurrency.ts:53-56 | The index is 0/0 exactly when there are tenants and every mean is zero. |
| Fairness.MeanExact | scripts/bench-tenant-concurrency.ts:49-52 | A mean times the number of latencies is their sum, and 0 without latencies. |
| Fairness.SharedAlike | scripts/bench-tenant-concurrency.ts:44-57 | When k of n tenants have the same mean and the others 0, the index is k / n. |
| Hashing.Djb2 | scripts/bench-cost-prediction.ts:71-77 | For every text the signed-shift loop returns 5381 * 33^n plus the base-33 polynomial of the n code units, modulo 2^32. |
| Hashing.HornerIsPolynomial | scripts/bench-cost-prediction.ts:71-77 | Multiplying and adding one character at a time gives that polynomial. |
| Hashing.RoundCongruent | scripts/bench-cost-prediction.ts:74 | One round keeps the congruence modulo 2^32 through the shift and both signed truncations. |
| Hashing.StatesDistinct | scripts/bench-cost-prediction.ts:80-83 | From every seed no state repeats within 2^32 draws. |
| Hashing.StateReturns | scripts/bench-cost-prediction.ts:80-83 | After exactly 2^32 draws the state is that of the seed again. |
| Hashing.OddCancels | scripts/bench-cost-prediction.ts:83 | If an odd number times n is a multiple of 2^m, so is n. |
| Hashing.Generator.Next | scripts/bench-cost-prediction.ts:82-88 | A draw advances the state by the odd increment modulo 2^32 and returns a value in [0, 1). |
| Hashing.FirstWords | scripts/bench-cost-prediction.ts:80-88 | The first three words drawn from seed 0. |
| Hashing.Jitter | scripts/bench-cost-prediction.ts:149-151 | The jitter is 0.85 plus 0.3 times the fraction drawn, so at or above 0.85 and below 1.15. |
| Promotion.CollectServices | scripts/cd-manifest-verify.ts:217-236 | The shared service loop returns the pinned services and a reason for each unpinned, missing or unknown one. |
| Promotion.ServicesClean | scripts/cd-manifest-verify.ts:217-236 | No reason arises exactly when the map is present, covers exactly the required services, a `__proto__` entry aside, and pins each entry by digest. |
| Promotion.ProtoUnseen | scripts/cd-manifest-verify.ts:222-228 | A `__proto__` entry with a pinned image changes neither the reasons nor the verified services. |
| Promotion.ChecksClean | scripts/cd-manifest-verify.ts:193-215 | No reason arises exactly when the required checks are declared and every declared one was executed and succeeded. |
| Promotion.VerifyCandidateManifest | scripts/cd-manifest-verify.ts:121-277 | The verifier, with its field checks and its loops over checks, services and expected map, returns the reasons and the services of the specification. |
| Promotion.CompareExpected | scripts/cd-manifest-verify.ts:238-250 | The two loops over the expected map return a reason for each service missing, different or not expected. |
| Promotion.VerifyStagingMarker | scripts/cd-manifest-verify.ts:285-369 | The marker verifier returns the reasons of its fields and of the services, which are checked as for the manifest. |
| Promotion.CompareServices | scripts/cd-manifest-verify.ts:393-403 | The loop over the united keys returns a reason for exactly the services on which the two maps differ, absence in one of them included. |
| Promotion.VerifyPromotion | scripts/cd-manifest-verify.ts:372-408 | No reason is listed exactly when both documents verified, the environment is production, no credential is reused, the candidate is the expected one and both maps are equal and hold every required service; each reason appears exactly for its own cause. |
| Promotion.ManifestClean | scripts/cd-manifest-verify.ts:121-277 | The manifest verifier finds nothing exactly in a manifest that is right field by field: hash, schema, candidate, lockfile, artifact, producer run and attempt, checks, services, expected map, attestation and subject. |
| Promotion.MarkerClean | scripts/cd-manifest-verify.ts:285-369 | The marker verifier finds nothing exactly in a validated marker for the expected environment, manifest hash, candidate and verification run, with an attempt and complete services. |
| PromotionCauses.ManifestReasonsExact | scripts/cd-manifest-verify.ts:121-277 | Every reason of the manifest verifier is given exactly for its own cause: the field, check, declared service or expected service that is wrong. |
| PromotionCauses.MarkerReasonsExact | scripts/cd-manifest-verify.ts:285-369 | And so is every reason of the marker verifier. |
| PromotionCauses.ServicesExact | scripts/cd-manifest-verify.ts:217-236 | The verified services are exactly the declared ones with a pinned image, `__proto__` aside, each with its own image. |
| PromotionCauses.PinnedExact | scripts/cd-manifest-verify.ts:51 | An image is pinned exactly when it is a name without at-sign and white space, the mark and 64 lower-case hex digits. |
| Promotion.AcceptedExactly | scripts/cd-manifest-verify.ts:121-408 | A promotion is accepted exactly when both documents are right field by field and verify the same pinned images for the required services, for production and with its own credentials. |
| Promotion.OneDigestChanged | scripts/cd-manifest-verify.ts:285-408 | Changing one required service in either document makes an accepted promotion refused. |

## Left out

- JSON values outside the grammar: `undefined`, functions, `toJSON`, NaN and infinities. A number is its printed token, so number formatting and -0 are not modelled; object keys are distinct.
- `rewriteConsoleCalls`, `scrubStaleTsExtensions`, `ensureImport` and file access of the rewriter: separate text edits, none of which the balance guard treats differently.
- CatchRewrite.MatchComplete: the regular-expression engine itself is not modelled; the pattern is deterministic, so taking maximal runs is its only match. Text is a sequence of Unicode scalar values, not of UTF-16 code units; the pattern and the automaton look at ASCII characters and white space only.
- RewriteBalance.ProcessCatches: the console rewriting before the guard, dry runs, and the imports injected after it are not part of this model.
- EmptyBody.EffectivelyEmptyIsExact: bodies in which a line comment opens a block that is closed behind it; there `OpenSwallows` says what is removed and `HarmfulWitness` that some such body is misjudged.
- RewriteBalance.RewriteShiftsDepth: files in which a replaced match starts inside a string or comment, ends inside a string or block comment, or ends in a line comment with brackets, quotes or slashes left on its line; one such edit is covered by `EditKeepsBalance`.
- Throttle.ReachableInvariant: real timers, clock skew, aborts and the contents of replies are not modelled. Reading and writing the timestamp are always two steps, which allows more interleavings than the code has when no sleep is needed.
- Throttle.GrantsInWindow: the delay is fixed for a run; the script sets it once from its command line before the first call.
- ChartDigest.ComputeChartContentDigest: the check that the root itself is a directory, read errors, and file systems whose names are no byte strings. SHA-256 is any function of the bytes; that it separates pre-images is not claimed.
- ChartStamp.StampThenVerify: no other process changes the chart between stamp and verify.
- Campaign.ValidateCampaignObservation: dates are given as parsed, an ill-typed entry by what the comparisons make of its fields, fault points are strings, and the order of the failures is not kept.
- Rollback.AggregateObservations: numbers are integers, scenario ids are no property names of `Object.prototype`, failures are a set without order, and the three metrics that are renamed copies of scenario counters are left to `scenarios`.
- RollbackRun.RunBenchmark: artifact bodies, the sanitizer, `stableJson` and written files; a trial is its outcome (retained with problems, or thrown).
- WarRoom.DataFile.Advance: log ids and messages, missing arrays, and the file the data is read from and written to.
- AuditContiguity.InMemoryContiguity: the UNKNOWN verdict of a failing query and all other sections of the report; sequences are integers.
- Rotation.AuditLedger.Invoke: receipts, the HMAC chain inside the ledger, playbook and JSON output, and the cadence values of the table. An append succeeds or fails as a whole.
- WorkerPool.FinishedPool: latency values, percentiles and throughput; a zero concurrency finishes at once with nothing taken.
- Fairness.FairnessBounds: floating-point rounding; the code's folds are over reals.
- Hashing.Jitter: rounding of the products and of the token counts; the generator's quality beyond its period is not claimed.
- Promotion.VerifyCandidateManifest: the order and texts of the reasons, JSON parsing (a document that does not parse is `None`), the hash of the bytes (a parameter), and a caller's own list of required services; the verifiers are modelled with the default one. Which reason is given for a check or an expected service named like a property of `Object.prototype` is not modelled; that one is given is.
- Kernel, broker, saga, lease, scheduler, memory and pricing packages, SQL probing, process spawning, HTTP and console output: not part of this model.
