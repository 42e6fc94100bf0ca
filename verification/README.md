# Verified core of tropel

tropel signs HTTP requests (Rust) and runs k6, Postman and CryptoJS scripts on JavaScript shims.
This project models the parts of it that carry the most logic, and proves what they are for.

* **Object graphs** (`FiniteSets`, `Values`, `Matching`, `Bisimulation`, `Similarity`, `Judgement`, `Decision`,
  `DeepEqual`, `CloneDeep`, `Members`).  Deep equality of possibly cyclic values with a stack of assumed pairs
  is proved to decide bisimilarity; the deep clone is proved to be a fresh isomorphic copy; greedy pairing in
  Maps, Sets and chai's `members` is proved complete.
* **Digest authentication** (`Text`, `Challenge`, `ChallengeGrammar`, `Digest`, `DigestEcho`, `DigestHeader`,
  `DigestSession`, `DigestWire`).  Every challenge of the written grammar parses to what it means; the header
  writer and the parser are proved inverse, exactly when they are; a server's recomputation is proved to agree;
  and what reaches the wire, nonce counters included, is followed over every run.
* **Canonical strings and keys** (`Lexicographic`, `PairOrder`, `QueryString`, `OAuth1`, `SigV4`, `SigV4Text`,
  `SigningCache`).  What the base string and the canonical request say, exactly which requests share them, and
  what the shared key cache returns in every interleaving.
* **HTML** (`HtmlSyntax`, `HtmlRoundTrip`, `HtmlExact`, `HtmlTags`, `HtmlClosing`, `HtmlTree`).  The tokenizer as
  a function of the text still to be read, what it makes of tags however they are written and closed, exactly
  which documents survive the serializer and the tokenizer, and the linked tree it builds.
* **Calendar** (`Calendar`).  The closed-form date against a calendar walked day by day.
* **Codecs and timers** (`Utf8`, `Base64`, `WordArray`, `Timers`).

Code that updates things in place is a class or a method with loops; what it does is stated by a function
of its inputs or of its old state, and the lemmas are about that function.  Hashes and HMAC are arbitrary
functions, the clock and the nonces are parameters, and a timer callback is an arbitrary list of actions.

## Where the code and a promise part

* Deep equality tests only the right-hand operand's kind and `.size` in its Map and Set branches.  So a Set
  can equal a Map (`Decision.SetPassesForMap`) but not the other way round, a plain object whose `size` field
  has the right number can equal a Set, and against a Map of that size it makes the comparison throw
  (`Decision.BoxAgainstMapThrows`).  Two values meet when they are the operands, or when two nodes that meet
  and pass those guards hold them at one index, under one key, or in the same component of any two rows.
  The comparison decides bisimilarity when no two nodes of different kinds that meet are alike even on that
  loose view (`DeepEqual.DeepEqual`).  That covers every two Sets or Maps of plain members, whatever fields
  they have (`Decision.PlainMembers`), and objects that hold such Sets and Maps beside plain values
  (`Decision.PlainFields`).
* If nodes of different kinds that meet and pass the guards are read as primitives, every pair that meets is
  answered right exactly when none is misjudged (`Decision.AllRightExactly`).  Otherwise the answer can turn
  on the insertion order of a Map, on which bisimilarity does not depend (`Decision.OrderMatters`), and the
  absence of confusion is sufficient but not necessary (`Decision.ConfusedYetRight`).
* `_.cloneDeep` copies Maps and Sets as empty objects.  The clone is bisimilar to its source, and compares
  equal to it, exactly when none is reachable.
* The server's algorithm name is echoed without quotes.  The written header reads back as written exactly
  when that name has no outer blanks, does not begin with a quote, exposes no comma and closes its quotes
  (`DigestEcho.RoundTripExact`); a name with a comma is lost.
* A nonce use is repeated exactly when a server goes back to a nonce it had given up.
* The nonce count has the eight digits of RFC 7616 exactly while it fits in 32 bits.
* A comment in the signing-key cache promises at most eight entries.  The code clears only above eight, so
  nine different cache keys in a row leave nine entries; eight suffice in every run exactly when no nine of the
  callers' inputs have different cache keys.
* The cache key joins four strings with `|`.  Inputs with a `|` in date, region or service can collide; whatever
  the hash is, every key handed out is right exactly when no two different inputs share a cache key.
* The k6 UTF-8 round trip loses a high surrogate that something other than its low surrogate follows, and
  only that; CryptoJS's encoder differs from it on exactly those strings.
* Two CryptoJS word arrays may hold one list of words.  Appending the longer of them to the shorter reads the
  list after it was clamped, or while it is being written; `WordArray.ConcatShared` says when that still gives
  the right bytes.
* The HTML serializer writes a void element without name and attributes as `</>`, replaces quotation marks in
  attribute values that the tokenizer does not restore, and runs neighbouring text nodes together.  Among the
  documents that the tokenizer can produce, those without these three are the ones that survive the round trip
  (`HtmlExact.ParsePrintExact`).
* The printed timestamp is an RFC 3339 date-time exactly for the years 0000 to 9999.

## Model

| member | source | states |
|---|---|---|
| Bisimulation.BisimilarEquivalence | js/shared/deep-equal.js:16-22 | bisimilarity, defined without reference to the algorithm, is reflexive, symmetric and transitive on every finite graph of primitives, arrays, plain objects, Maps and Sets |
| Bisimulation.ContainersRelated | js/shared/deep-equal.js:20-21 | Maps are related when their entries can be paired off, key with key and value with value, and Sets when their members can |
| Matching.Exchange | js/shared/deep-equal.js:112-125 | a greedy choice of mate never spoils a pairing that exists, for relations that come from an equivalence and sides of any two lengths |
| Similarity.ScopeSound | js/shared/deep-equal.js:82-156 | the pairs that meet when two values are compared are closed: elements at one index, fields under one key, and the same component of every row with every row, for every pair the guards let through |
| Similarity.ScopeLeast | js/shared/deep-equal.js:82-156 | they are contained in every relation closed that way |
| Similarity.OneKindUnconfused | js/shared/deep-equal.js:99-130 | a scope in which whatever passes the guards is of one kind is free of confusion |
| Similarity.LevelIsLargest | js/shared/deep-equal.js:97-156 | without confused nodes the similarity that the code's guards allow is bisimilarity, on the pairs that meet |
| Judgement.Discharge | js/shared/deep-equal.js:82-94 | assuming the pair under comparison while its children are compared proves nothing false, at any depth |
| Judgement.RowRelationDifunctional | js/shared/deep-equal.js:112-153 | being deep-equal mates is a relation on which greedy choice is safe |
| Judgement.JudgeMeans | js/shared/deep-equal.js:25-216 | under any assumed pairs an equal verdict follows from the assumptions, a different one is true whenever they are and nothing is confused, and only confusion throws |
| Judgement.ObjectsMean | js/shared/deep-equal.js:79-213 | the same behind the guards and the seen pairs, and what is known of a verdict reached without assumptions, confused or not |
| Judgement.FieldsMean | js/shared/deep-equal.js:200-213 | equal exactly for equal key sets with equal values, whatever the key order |
| Judgement.MateMeans | js/shared/deep-equal.js:143-149 | the first unused row that compares equal, or none is related |
| Judgement.FirstDecides | js/shared/deep-equal.js:86-93 | the first pair of elements that is not equal decides, whatever comes after it, an exception included |
| Judgement.FirstKeyDecides | js/shared/deep-equal.js:206-211 | so does the first key, in order, that the other side lacks or whose values are not equal |
| Judgement.AllRowsMean | js/shared/deep-equal.js:109-155 | greedy first-unused-mate matching succeeds exactly when a one-to-one matching exists; rows of primitives are told apart even in confused graphs |
| Decision.JudgeDecides | js/shared/deep-equal.js:25-216 | on every closed graph, cyclic or not, equal exactly for bisimilar values when the pairs that meet are not confused |
| Decision.PrimitivesExact | js/shared/deep-equal.js:26-29 | a primitive is equal to itself, NaN included, and otherwise only to the other zero, whatever pairs are assumed |
| Decision.ArrayLikeExact | js/shared/deep-equal.js:131-156 | a plain object against a Set: different without the Set's size, thrown on an unreadable length, and otherwise equal exactly when its items, if primitives, are among the members |
| Decision.PlainRight | js/shared/deep-equal.js:25-216 | against a value built of primitives, arrays and plain objects the answer is right, whatever is compared with it |
| Decision.PlainMembers | js/shared/deep-equal.js:99-156 | two Sets, or two Maps, of plain members are told apart exactly, whatever fields the members have |
| Decision.PlainFields | js/shared/deep-equal.js:97-213 | so are two objects that hold such Sets and Maps beside plain values |
| Decision.KindsDiffer | js/shared/deep-equal.js:99-130 | objects of different kinds are never bisimilar, so the answers for misjudged pairs are wrong ones |
| Decision.MisjudgedWrong | js/shared/deep-equal.js:99-130 | a misjudged pair is not bisimilar, and is called equal, or throws exactly when its rows cannot be taken |
| Decision.AllRightExactly | js/shared/deep-equal.js:99-130 | when nodes of different kinds that meet and pass the guards are read as rows of primitives, every pair that meets is answered right exactly when none is misjudged |
| Decision.BoxesEqual | js/shared/deep-equal.js:131-156 | `new Set([{size: 1}])` equals its like |
| Decision.CratesEqual | js/shared/deep-equal.js:97-213 | an object that holds a Map and a plain object with its size beside it equals its like |
| Decision.SetPassesForMap | js/shared/deep-equal.js:99-130 | `new Set([1])` is called equal to `new Map([[1, 1]])` |
| Decision.BoxAgainstMapThrows | js/shared/deep-equal.js:99-110 | comparing `{size: 1}` with `new Map([[1, 1]])` throws |
| Decision.OrderMatters | js/shared/deep-equal.js:113-130 | a Set and a Map that are called different in one order of the Map's entries and equal in the other |
| Decision.ConfusedYetRight | js/shared/deep-equal.js:113-130 | in the first order the answer is right although the scope is confused |
| DeepEqual.Comparison.Compare | js/shared/deep-equal.js:25-216 | the recursive comparison ends, gives the verdict of the function for the pairs on its stack, tells primitives apart exactly, and restores the stack unless it throws |
| DeepEqual.Comparison.CompareObjects | js/shared/deep-equal.js:79-213 | the guards of the branches, the search of the stack, push and pop |
| DeepEqual.Comparison.CompareNodes | js/shared/deep-equal.js:86-213 | the contents of each kind of node, `Array.from` of a plain object included, and the exception when the rows cannot be taken |
| DeepEqual.Comparison.CompareElements | js/shared/deep-equal.js:86-93 | the loop over array elements, up to the first difference |
| DeepEqual.Comparison.CompareFields | js/shared/deep-equal.js:200-213 | the sorted keys of both objects, then key by key |
| DeepEqual.Comparison.FindMate | js/shared/deep-equal.js:143-149 | the inner loop finds the first unused row that compares equal |
| DeepEqual.Comparison.CompareRows | js/shared/deep-equal.js:109-155 | the outer loop gives each row its mate |
| DeepEqual.DeepEqual | js/shared/deep-equal.js:25-216 | on every closed graph: equal exactly for bisimilar values when the pairs that meet are not confused, and the exact wrong answer for misjudged operands |
| CloneDeep.Cloner.Deep | js/lodash/lodash-shim.js:469-486 | copies what is newly reached, resolves what was seen to its copy in progress, leaves every existing object alone, and ends |
| CloneDeep.Cloner.DeepChild | js/lodash/lodash-shim.js:479-482 | copying a child leaves what is already filled of its parent's copy as it is |
| CloneDeep.Cloner.FillArray | js/lodash/lodash-shim.js:478-479 | the copy of an array is filled with the images of its elements |
| CloneDeep.Cloner.FillFields | js/lodash/lodash-shim.js:480-484 | the copy of an object is filled with the images of its own fields, in any order of enumeration |
| CloneDeep.Clone | js/lodash/lodash-shim.js:464-488 | the source graph is unchanged and the result is a fresh graph isomorphic to exactly what the value reaches, sharing and cycles included |
| CloneDeep.CopyFaithful | js/lodash/lodash-shim.js:464-488 | a copy is bisimilar to its source exactly when no Map or Set is reachable |
| CloneDeep.CopyExact | js/lodash/lodash-shim.js:469-486 | item by item: primitives as they are, references to the copies of their objects, the same keys and lengths, and an empty object for a Map or a Set |
| CloneDeep.CloneThenCompare | js/lodash/lodash-shim.js:464-502 | on every graph a value deep-equals its clone exactly when it reaches no Map and no Set, and the comparison never throws |
| Members.MatesDifunctional | js/chai/chai-shim.js:528-537 | both ways of comparing members make greedy choice safe, although `===` is not reflexive at NaN |
| Members.SameShallow | js/chai/chai-shim.js:528-537 | without the deep flag a member equals itself unless it is NaN, and otherwise only the other zero |
| Members.AllMatched | js/chai/chai-shim.js:527-537 | succeeds exactly when the two arrays can be paired off one to one, with `===` always and deeply when no elements are confused |
| Members.AssertMembers | js/chai/chai-shim.js:517-550 | the assertion with its deep and negate flags; anything but two arrays fails either way, and an exception of the comparison passes through |
| Calendar.Decompose | crates/tropel-auth/src/oauth.rs:89-92 | the truncating divisions split the day of an era into centuries, four-year cycles, years and days |
| Calendar.CivilStep | crates/tropel-auth/src/oauth.rs:87-96 | one more day in the closed form is the next calendar day, for every day number |
| Calendar.CivilIsWalk | crates/tropel-auth/src/oauth.rs:87-96 | the closed form is the date reached by walking the Gregorian calendar from 1970-01-01, forwards or backwards |
| Calendar.CivilIsDate | crates/tropel-auth/src/oauth.rs:93-96 | month and day are always in range, leap days included |
| Calendar.TimestampRecomposes | crates/tropel-auth/src/oauth.rs:83-104 | the fields are in range and recompose to the original milliseconds |
| Calendar.NoOverflow | crates/tropel-auth/src/oauth.rs:82-96 | on 64-bit milliseconds no intermediate value leaves 64 bits |
| Calendar.Rfc3339Exact | crates/tropel-auth/src/oauth.rs:97-106 | the text is a well-formed RFC 3339 date-time exactly for instants in the years 0000 to 9999, and then denotes the instant's fields |
| Calendar.Rfc3339Injective | crates/tropel-auth/src/oauth.rs:82-107 | distinct instants in that range print differently |
| Challenge.SplitChallengeParts | crates/tropel-auth/src/builders.rs:949-977 | the scanning loop splits on exactly the commas outside quoted strings |
| Challenge.SplitLossless | crates/tropel-auth/src/builders.rs:944-977 | joining the parts with commas restores the header; no part has a breaking comma; all but the last are balanced |
| Challenge.UnquoteChallengeValue | crates/tropel-auth/src/builders.rs:1003-1026 | the loop undoes quoted-pair escapes up to the closing quote |
| Challenge.ParseChallengePart | crates/tropel-auth/src/builders.rs:980-990 | trimmed lower-cased key and unquoted value, or nothing without `=` |
| Challenge.ParseChallenges | crates/tropel-auth/src/builders.rs:891-933 | the grouping loop computes the grouping function of the split parts |
| Challenge.ParseConcat | crates/tropel-auth/src/builders.rs:886-890 | parsing `h1, h2` gives the challenges of h1 followed by those of h2 for balanced h1 and h2 beginning with a scheme |
| ChallengeGrammar.ParseMeans | crates/tropel-auth/src/builders.rs:886-1026 | every header value of the grammar of section 4.1 of RFC 7235 parses to the challenges it means: several schemes, commas and escapes in quoted strings, any case of keys, empty parts and blanks |
| ChallengeGrammar.QuotedStringEnds | crates/tropel-auth/src/builders.rs:1003-1026 | a quoted string ends at its closing quote whatever follows, and without one is all that could be read |
| ChallengeGrammar.FindDigestFirst | crates/tropel-auth/src/builders.rs:937-942 | the parameters found are those of the first challenge named `Digest` in any case |
| Digest.UnescapeEscape | crates/tropel-auth/src/builders.rs:177-184 | unescaping an escaped value up to its closing quote gives the value back |
| Digest.FieldScan | crates/tropel-auth/src/builders.rs:166-185 | a quoted field is balanced and exposes no comma, whatever its value; a bare field exactly as far as its value is and does |
| Digest.ParseField | crates/tropel-auth/src/builders.rs:177-185 | a written field parses to its key and to its value, trimmed and unquoted if it was written bare |
| Digest.ReadsBackExact | crates/tropel-auth/src/builders.rs:166-185 | a bare value is read back as itself exactly when it has no outer blanks and does not begin with a quote |
| Digest.NonceCountExact | crates/tropel-auth/src/builders.rs:229 | the count denotes the counter and has eight digits exactly below 2^32 |
| Digest.RoundTrip | crates/tropel-auth/src/builders.rs:205-255 | for all credentials, realms, nonces, URIs, opaques and qop lists the written header parses to one Digest challenge with exactly the written fields |
| DigestHeader.OffersAuthExact | crates/tropel-auth/src/builders.rs:162-164 | `auth` is offered exactly when it stands in the list between commas or ends, blanks aside |
| DigestHeader.HeaderTells | crates/tropel-auth/src/builders.rs:205-255 | what a server parses: user, realm, nonce, URI, opaque value and upper-cased algorithm as given, `qop`, `nc` and `cnonce` exactly when the challenge lists `auth`, and a `cnonce` always for a session algorithm |
| DigestHeader.WireForm | crates/tropel-auth/src/builders.rs:177-255 | the fields are in the fixed order, `qop`, `nc` and `algorithm` without quotes and every other value quoted |
| DigestHeader.OtherNames | crates/tropel-auth/src/builders.rs:143-152 | a name that does not begin with `sha-`, whatever the case, means MD5 |
| DigestEcho.RoundTripExact | crates/tropel-auth/src/builders.rs:205-255 | it does so exactly when the algorithm name survives being echoed bare, a condition on that name alone and on whether an opaque value follows |
| DigestEcho.CommaLost | crates/tropel-auth/src/builders.rs:236-239 | a name with a comma and no quotes does not survive |
| Digest.RfcTokens | crates/tropel-auth/src/builders.rs:143-152 | the prefix and suffix tests read each of the six algorithm tokens as RFC 7616 defines it |
| Digest.ServerAgrees | crates/tropel-auth/src/builders.rs:120-140 | a server that parses the header and recomputes the response as RFC 7616 prescribes gets the value in the header, for any hash and each algorithm |
| DigestSession.DigestAuth.SignRequest | crates/tropel-auth/src/signers.rs:669-695 | uses the host's session once and issues a header from it, or does nothing without one |
| DigestSession.DigestAuth.ChallengeResponse | crates/tropel-auth/src/signers.rs:697-739 | opens, renews or continues the host's session, uses it once and issues a header; an unusable challenge changes nothing |
| DigestSession.IssueOnTheWire | crates/tropel-auth/src/signers.rs:764-789 | the realm, nonce and count of the session are the ones a server parses from the header |
| DigestWire.RunAnswered | crates/tropel-auth/src/signers.rs:710-732 | in every run a host's session has the realm, nonce, qop, algorithm and opaque value of the challenge that last renewed it |
| DigestWire.HeaderEchoes | crates/tropel-auth/src/signers.rs:669-739 | in every run the header issued from a session echoes that challenge, with the caller's user and URI and the session's count |
| DigestWire.HeaderAccepted | crates/tropel-auth/src/signers.rs:764-800 | a server that knows the password and saw the method computes the response in it |
| DigestSession.CountsInOrder | crates/tropel-auth/src/signers.rs:643-644 | over every run the counts for a host between changes of nonce or realm are exactly 1, 2, 3, ... |
| DigestSession.HostsIndependent | crates/tropel-auth/src/signers.rs:637-638 | over every run a host's session and everything issued for it are what that host's own events alone produce |
| DigestSession.IssuesFollowOffers | crates/tropel-auth/src/signers.rs:710-732 | the nonces issued for a host come back after another exactly when the nonces it was challenged with do |
| DigestSession.NeverReusedIffNoReturns | crates/tropel-auth/src/signers.rs:720-732 | over every run no (host, realm, nonce, count) is issued twice exactly when no host is challenged again with a nonce it had given up |
| DigestSession.ReturnReuses | crates/tropel-auth/src/signers.rs:720-732 | challenges with nonces A, B, A issue the first use of A twice |
| SigningCache.KeyCache.DeriveSigningKey | crates/tropel-auth/src/signers.rs:347-372 | one caller alone: the cached key, or the chain and the cache with it stored |
| SigningCache.ChainReads | crates/tropel-auth/src/builders.rs:576-581 | through a hash that forgets nothing the key reads back, layer by layer, as `aws4_request`, service, region, date and the prefixed secret |
| SigningCache.AloneIsCall | crates/tropel-auth/src/signers.rs:354-371 | the three steps of a thread that nobody interrupts are that call |
| SigningCache.StepInvariant | crates/tropel-auth/src/signers.rs:354-371 | every step of every thread keeps the cache bounded and each entry some user's chain |
| SigningCache.RightIffSeparable | crates/tropel-auth/src/signers.rs:347-372 | for a given hash every key returned in every interleaving is the uncached chain for its own inputs exactly when inputs that share a cache key share their signing key |
| SigningCache.RightForEveryHash | crates/tropel-auth/src/signers.rs:347-372 | whatever the hash, every key returned in every interleaving is right exactly when no two different inputs share a cache key |
| SigningCache.CleanRunsRight | crates/tropel-auth/src/signers.rs:353 | without the separator in date, region or service every returned key is right |
| SigningCache.SeparatorCollides | crates/tropel-auth/src/signers.rs:353 | two scopes that share a cache key when the region contains the separator, and a run in which the second caller is handed the first one's key |
| SigningCache.CacheBounded | crates/tropel-auth/src/signers.rs:365-370 | the cache never holds more than nine keys |
| SigningCache.EightIffNoNine | crates/tropel-auth/src/signers.rs:366-370 | it never holds more than eight exactly when no nine of the callers' inputs have pairwise different cache keys |
| SigningCache.NineReached | crates/tropel-auth/src/signers.rs:366-370 | a run that leaves nine keys, whatever the hash |
| OAuth1.DecodeEncode | crates/tropel-auth/src/builders.rs:709-711 | percent-decoding inverts percent-encoding on every byte sequence and no separator survives encoding |
| OAuth1.EncodeOne | crates/tropel-auth/src/builders.rs:703-711 | letters, digits, `-`, `.`, `_` and `~` stay as they are, and every other byte becomes `%` and two upper-case digits |
| OAuth1.EncodeInjective | crates/tropel-auth/src/builders.rs:703-711 | two strings encode alike exactly when they are equal |
| OAuth1.ParamStringExact | crates/tropel-auth/src/builders.rs:720-729 | two parameter strings are equal exactly for equal multisets of parameters |
| OAuth1.BaseStringExact | crates/tropel-auth/src/builders.rs:719-736 | two base strings are equal exactly when upper-cased method, base URI and parameter multiset are |
| OAuth1.BaseStringSays | crates/tropel-auth/src/builders.rs:719-736 | the last two `&` separate the method, what decodes to the URI and what decodes to the parameter string, which lists the encoded parameters as `k=v` in the order of their encodings |
| PairOrder.SortIsMultiset | crates/tropel-auth/src/builders.rs:724 | lists sort alike exactly when they hold the same pairs equally often |
| PairOrder.SortedAscends | crates/tropel-auth/src/builders.rs:724 | sorted pairs ascend by key and then by value |
| Lexicographic.BeforeIsLess | crates/tropel-auth/src/builders.rs:507 | the order is that of the first differing character, a proper beginning coming first |
| QueryString.PrintInjective | crates/tropel-auth/src/builders.rs:725-729 | `k=v` pairs joined with `&` can be read back |
| SigV4.TrimAllNormal | crates/tropel-auth/src/builders.rs:489-491 | Trimall keeps the words and leaves no whitespace but single spaces between them; it is idempotent, and leaves alone exactly the values that are so already |
| SigV4.CanonicalQueryExact | crates/tropel-auth/src/builders.rs:498-513 | canonical queries are equal exactly for equal multisets of pairs |
| SigV4.CanonicalQueryIdempotent | crates/tropel-auth/src/builders.rs:498-513 | canonicalising twice changes nothing |
| SigV4.GroupHeaders | crates/tropel-auth/src/builders.rs:533-545 | the loop groups trimmed values under lower-cased names, without `authorization`, joined with bare commas |
| SigV4.CanonicalHeaders | crates/tropel-auth/src/builders.rs:524-554 | the result lists, in key order, the grouped headers overridden by the ones the signer sets |
| SigV4.HeaderMapByName | crates/tropel-auth/src/builders.rs:531-545 | the signed headers depend only on the values given under each name |
| SigV4.OrderAndCaseIgnored | crates/tropel-auth/src/builders.rs:534-540 | reordering differently named headers and recasing a name change no name's values |
| SigV4.CanonicalRequest | crates/tropel-auth/src/builders.rs:605-631 | renders method, URI, canonical query, header lines, signed names and payload hash |
| SigV4.RenderExact | crates/tropel-auth/src/builders.rs:617-631 | the rendered request determines each of its parts |
| SigV4.CanonicalRequestExact | crates/tropel-auth/src/builders.rs:599-631 | two requests render alike exactly when upper-cased method, URI, multiset of query pairs, signed header map and payload hash agree |
| SigV4Text.CanonicalText | crates/tropel-auth/src/builders.rs:617-631 | the lines of the request: upper-cased method, URI, query, one `name:value` for each signed header in ascending order, an empty line, the names between semicolons, and the payload hash |
| SigV4Text.QueryLine | crates/tropel-auth/src/builders.rs:498-513 | the query line is the pieces of the query that are not empty, each with an `=`, equally often and in the order of keys and then values |
| SigV4Text.ValuesListed | crates/tropel-auth/src/builders.rs:533-545 | the value signed under a name is the trimmed values given for it, in order, between bare commas |
| SigV4Text.SignerSets | crates/tropel-auth/src/builders.rs:547-552 | host, payload hash, date and token are the signer's, whatever was given under their names |
| SigV4Text.OthersSigned | crates/tropel-auth/src/builders.rs:533-545 | every other header that was given is signed, except `authorization` |
| HtmlTree.Tokenizer.ParseValue | js/k6-shim/deferred-modules-shim.js:76-88 | attribute values, quoted, unterminated, bare, and at the end of the input where stepping back lands on the last character |
| HtmlTree.Tokenizer.ParseAttribute | js/k6-shim/deferred-modules-shim.js:69-90 | one attribute with or without a value, or where the attributes end |
| HtmlTree.Tokenizer.ParseAttributes | js/k6-shim/deferred-modules-shim.js:67-92 | the attribute loop ends despite the step back and computes the attribute function |
| HtmlTree.Tokenizer.ParseTagToken | js/k6-shim/deferred-modules-shim.js:94-121 | closing tags, comments, declarations, void and opening tags |
| HtmlTree.Tokenizer.Close | js/k6-shim/deferred-modules-shim.js:133-142 | pops to the innermost open element with the tag; the document is never popped |
| HtmlTree.Tokenizer.Advance | js/k6-shim/deferred-modules-shim.js:123-156 | one round of the main loop moves forward and keeps one linked tree, a stack that is a path from the document, and the meaning of both |
| HtmlTree.AddLinked | js/k6-shim/deferred-modules-shim.js:129-146 | adding a node keeps every node listed exactly once under the node its `parent` names |
| HtmlTree.AddPath | js/k6-shim/deferred-modules-shim.js:127-132 | the stack stays a path from the document, each entry the parent of the next |
| HtmlTree.CloseTo | js/k6-shim/deferred-modules-shim.js:135-140 | popping several elements at once closes each inside the next |
| HtmlTree.Tokenize | js/k6-shim/deferred-modules-shim.js:50-159 | for every input the tokenizer ends with one linked tree that stands for the parse of the input |
| HtmlTags.StartTag | js/k6-shim/deferred-modules-shim.js:67-121 | a start tag however it is written: any case, any blanks, attributes with either kind of quotes, without quotes or without a value, with or without a slash |
| HtmlTags.EndTag | js/k6-shim/deferred-modules-shim.js:96-101 | a closing tag in any case, whatever stands between its name and `>` |
| HtmlTags.CollectLast | js/k6-shim/deferred-modules-shim.js:89 | of several attributes with one name the last has its value stored |
| HtmlTags.CollectLacks | js/k6-shim/deferred-modules-shim.js:89 | names that do not occur are not stored, and `__proto__` never is |
| HtmlTags.SetAttrPlace | js/k6-shim/deferred-modules-shim.js:89 | a name that is set again keeps its place, and a new one comes last |
| HtmlTags.UnterminatedValue | js/k6-shim/deferred-modules-shim.js:80-83 | a quoted value without its closing quote is the rest of the input, which is then read again |
| HtmlTags.MissingValue | js/k6-shim/deferred-modules-shim.js:84-87 | behind an `=` at the end of the input the step back lands on the character before |
| HtmlClosing.ClosingTag | js/k6-shim/deferred-modules-shim.js:133-142 | a closing tag closes the innermost open element of its name with everything open inside it, what follows belongs to the element around it, and without such an element it does nothing |
| HtmlClosing.OuterTagCloses | js/k6-shim/deferred-modules-shim.js:133-142 | the same for `<a><b1>..<bn>` and `</a>` |
| HtmlClosing.VoidTagEnds | js/k6-shim/deferred-modules-shim.js:35-39 | each of the void names makes an element without children, slash or not |
| HtmlClosing.CommentSkipped | js/k6-shim/deferred-modules-shim.js:102-108 | a comment leaves nothing behind, and without its end takes the rest of the input |
| HtmlClosing.DeclarationSkipped | js/k6-shim/deferred-modules-shim.js:109-110 | any other declaration leaves nothing behind, up to its `>` |
| HtmlRoundTrip.ReadAttrs | js/k6-shim/deferred-modules-shim.js:395-400 | written attributes read back as themselves, in order |
| HtmlRoundTrip.ReadStart | js/k6-shim/deferred-modules-shim.js:401-404 | a written start tag reads back as its token |
| HtmlRoundTrip.BuildNode | js/k6-shim/deferred-modules-shim.js:392-405 | reading a written node appends it to the innermost open element and leaves the rest |
| HtmlRoundTrip.ParsePrint | js/k6-shim/deferred-modules-shim.js:386-405 | parsing the serialization of a normal-form document rebuilds the document |
| HtmlExact.ParseReadable | js/k6-shim/deferred-modules-shim.js:50-159 | whatever the input, the parsed tags and attribute names are well formed, names are distinct, texts are non-empty and free of `<`, and an element with a void tag is read as void |
| HtmlExact.ParseWeight | js/k6-shim/deferred-modules-shim.js:123-156 | text nodes, void elements and quoted values are neither lost nor doubled, however the elements are closed |
| HtmlExact.ParsePrintExact | js/k6-shim/deferred-modules-shim.js:386-405 | a document is what its serialization parses to exactly when it is in normal form |
| HtmlExact.QuotesReplaced | js/k6-shim/deferred-modules-shim.js:398 | in a written value every quotation mark is replaced by `&quot;`, and nothing else |
| HtmlRoundTrip.PrintThenTokenize | js/k6-shim/deferred-modules-shim.js:50-159 | the linked nodes stand for what the serialization parses to, and so for the document when it is in normal form |
| Utf8.K6Utf8Encode | js/k6-shim/k6-shim.js:1730-1752 | the encoding loop computes the encoding function on every sequence of code units |
| Utf8.K6Utf8Decode | js/k6-shim/k6-shim.js:1754-1776 | the decoding loop computes the decoding function on every byte sequence |
| Utf8.CryptoJsUtf8Parse | js/cryptojs-shim/cryptojs.js:182-212 | the parsing loop computes its encoding function |
| Utf8.RoundTripExact | js/k6-shim/k6-shim.js:1730-1776 | decoding an encoded string restores it exactly when no high surrogate is followed by anything but its low surrogate |
| Utf8.EncodersAgree | js/cryptojs-shim/cryptojs.js:182-213 | the two encoders agree on exactly the same strings |
| Utf8.StandardOnWellFormed | js/k6-shim/k6-shim.js:1730-1776 | on every well-formed string both produce the bytes of section 3 of RFC 3629, and decoding restores the string |
| Utf8.CryptoJsRoundTrip | js/cryptojs-shim/cryptojs.js:182-213 | what CryptoJS encodes, lone surrogates included, decodes to itself for every string |
| Utf8.TruncatedTail | js/k6-shim/k6-shim.js:1754-1776 | a sequence cut off by the end of the input is read byte by byte |
| Base64.WriteQuads | js/k6-shim/k6-shim.js:430-440 | the loop writes four characters for each group of three bytes |
| Base64.BytesToBase64 | js/k6-shim/k6-shim.js:430-444 | with the padding fix-up the result is the padded encoding by groups of three |
| Base64.Base64ToBytes | js/k6-shim/k6-shim.js:447-464 | the loop computes the accumulator function, wrap-around included |
| Base64.AccumulateEncode | js/k6-shim/k6-shim.js:451-462 | whatever the wrapped accumulator holds, decoding an encoding restores the bytes |
| Base64.OpenDataBase64ToBytes | js/k6-shim/open-data-shim.js:280-315 | cleaning, filling up and decoding by quads, or the error |
| Base64.BothInvert | js/k6-shim/open-data-shim.js:280-315 | both decoders invert the encoder on byte sequences of any length |
| Base64.AlphabetOrder | js/k6-shim/k6-shim.js:434-437 | the alphabet is that of section 4 of RFC 4648 |
| Base64.KeptChars | js/k6-shim/open-data-shim.js:287 | letters, digits, `+`, `/` and `=` are kept, and nothing else |
| Base64.ForeignIgnored | js/k6-shim/open-data-shim.js:280-315 | both decoders read an encoding through foreign characters |
| Base64.OpenFailsExactly | js/k6-shim/open-data-shim.js:286-303 | the second decoder gives up exactly when, of what it keeps, a pad is the first or second character of a group of four |
| WordArray.WordArray.constructor | js/cryptojs-shim/cryptojs.js:9-12 | a byte count of zero is taken as missing |
| WordArray.ClampedAt | js/cryptojs-shim/cryptojs.js:23-29 | clamping keeps the counted bytes and clears everything after them |
| WordArray.BigEndian | js/cryptojs-shim/cryptojs.js:78-86 | the first byte of a word is its most significant one |
| WordArray.WordArray.Clamp | js/cryptojs-shim/cryptojs.js:23-29 | the bytes are unchanged |
| WordArray.OrByteAt | js/cryptojs-shim/cryptojs.js:42-44 | merging a byte into a cleared position writes it and touches no other byte |
| WordArray.WordArray.Merge | js/cryptojs-shim/cryptojs.js:38-45 | the misaligned merge appends the bytes it reads, also while it is writing the very list it reads |
| WordArray.WordArray.Concat | js/cryptojs-shim/cryptojs.js:31-52 | the bytes are the old bytes followed by those read of the other array, for all lengths, alignments, stale bits and shared lists |
| WordArray.ConcatExact | js/cryptojs-shim/cryptojs.js:31-52 | what is read are the other array's bytes exactly when it has its own list, or counts no more bytes, or its further bytes repeat or are zero |
| WordArray.ConcatAppends | js/cryptojs-shim/cryptojs.js:31-52 | appending an array to itself, or one with its own list, appends its bytes |
| WordArray.ConcatShared | js/cryptojs-shim/cryptojs.js:9-52 | two arrays made over one list, the second appended to the first: its bytes arrive exactly when those past the first count repeat or are zero |
| WordArray.SharedLoses | js/cryptojs-shim/cryptojs.js:9-52 | two arrays over one list of two words for which they do not |
| WordArray.FromBytes | js/cryptojs-shim/cryptojs.js:69-76 | the array's bytes are the given ones |
| WordArray.ToBytes | js/cryptojs-shim/cryptojs.js:78-86 | the loop reads the array's bytes |
| WordArray.Envelope | js/cryptojs-shim/cryptojs.js:772-786 | the eight characters `Salted__`, the salt and the ciphertext in this order, or the bare ciphertext without a salt |
| WordArray.EnvelopeOpens | js/cryptojs-shim/cryptojs.js:824-839 | an envelope opens to its own salt and ciphertext exactly when the salt has eight bytes |
| WordArray.OpenPlain | js/cryptojs-shim/cryptojs.js:824-839 | bytes that are too short or do not begin with `Salted__` are taken as they are |
| Timers.TimerTable.SetTimeout | js/k6-shim/k6-shim.js:2164-2168 | registers a one-shot under the next id, with the clock and the delay asked for |
| Timers.TimerTable.SetInterval | js/k6-shim/k6-shim.js:2170-2174 | registers an interval under the next id, with the clock and the delay asked for |
| Timers.TimerTable.ClearTimer | js/k6-shim/k6-shim.js:2169-2175 | removes the timer, if any |
| Timers.TimerTable.PumpTimers | js/k6-shim/k6-shim.js:2182-2200 | the loop over the snapshot fires each timer that is still there and due, re-arming or removing it before its callback acts on the table |
| Timers.TimerTable.ResetTimers | js/k6-shim/k6-shim.js:2133-2162 | drops due one-shots and reports whether there were too many timers |
| Timers.RunCoherent | js/k6-shim/k6-shim.js:2120-2200 | in every run, with callbacks that set, clear and reset timers, the table is what its log says and the log is legal |
| Timers.IdsNeverReused | js/k6-shim/k6-shim.js:2165 | ids are handed out in increasing order |
| Timers.FirstFiringDue | js/k6-shim/k6-shim.js:2164-2188 | a first firing is no earlier than the clock at registration plus the delay asked for |
| Timers.NoFiringEarly | js/k6-shim/k6-shim.js:2164-2190 | no firing at all is earlier than that, if the delay is not negative or the clock does not go back between firings |
| Timers.NegativeDelayEarly | js/k6-shim/k6-shim.js:2170-2190 | neither can be dropped: an interval of -10 set at 100 fires at 95 and, the clock having gone back, at 86 |
| Timers.DuePumpFires | js/k6-shim/k6-shim.js:2182-2193 | the first pump at or after that time fires it, unless another callback of the pump puts it to rest first |
| Timers.DueIntervalFires | js/k6-shim/k6-shim.js:2187-2190 | the same of an interval after a firing, at or after that time and its delay |
| Timers.CallbackRuns | js/k6-shim/k6-shim.js:2194-2198 | what the callback of a firing timer sets or clears is registered or cleared after the firing, as it asked |
| Timers.ResetExact | js/k6-shim/k6-shim.js:2133-2152 | a reset drops exactly the one-shots that are due |
| Timers.LimitCounts | js/k6-shim/k6-shim.js:2142-2155 | what it counts against the limit are the timers of the table |
| Timers.NeverFiresAfterClear | js/k6-shim/k6-shim.js:2169-2175 | a registered timer that is cleared or dropped never fires again |
| Timers.OneShotOnce | js/k6-shim/k6-shim.js:2189-2193 | a one-shot fires at most once ever |
| Timers.IntervalSpacing | js/k6-shim/k6-shim.js:2189-2190 | an interval's successive firings are in later pumps and at least its delay apart |
| Timers.NeverInItsOwnPump | js/k6-shim/k6-shim.js:2177-2178 | a timer never fires in the pump it was registered in |
| Timers.PumpServesAllDue | js/k6-shim/k6-shim.js:2185-2193 | after a pump every due one-shot is gone and every due interval still there is re-armed from the pump's time |

## Left out

- DeepEqual.DeepEqual: Dates, RegExps, Errors, typed arrays and host objects, which only add leaf cases.  How `Array.from` reads a `length` is a parameter.
- Decision.AllRightExactly: when nodes of different kinds that meet and pass the guards hold objects, no condition is given that is both sufficient and necessary; the verdict then depends on insertion order.
- CloneDeep.Clone: array holes, inherited properties, a field named `__proto__`, Dates and RegExps.
- DigestSession.IssueOnTheWire: requires a name that can be echoed; one that cannot may itself carry a realm or a nonce.
- DigestSession.DigestAuth.SignRequest: the session key is taken as given, and the counter is unbounded where the source has 64 bits.
- SigV4.CanonicalRequest: the string to sign, the Authorization header and the service-dependent URI encoding, which format strings around the canonical request.
- OAuth1.BaseStringExact: Unicode upper-casing of the method is an arbitrary function.
- HtmlTree.Tokenize: nodes are numbered records rather than heap objects, and text is a sequence of Unicode scalar values, so lone surrogates are not represented.
- Timers.RunCoherent: delays are integers, callbacks do not call the pump, which belongs to the driver and need not end when it is re-entered, and an exception in a callback is the end of its list of actions.
- Base64.Base64ToBytes: the signed 32-bit accumulator is read as unsigned, which the masked results do not distinguish; the native encoders and decoders are foreign code.
- Hash, HMAC, AES and random-number internals, the request adapters, clocks and headers of `signers.rs`: foreign code or plumbing.
- Selector matching, Hawk, EdgeGrid, OAuth 2, JWT, WSSE, the rest of lodash and the script APIs: they would only add easy members, or have no clean law to state.
