# Verified model of httpxp

httpxp is an HTTP client with a Python front end and a native Rust core. This project models the parts of it
that carry algorithms with state, and proves what they promise for every input, every run and every
interleaving. One module stands for one component:

| module | component |
|---|---|
| `Quote`, `UrlPath`, `UrlParts`, `UrlPort`, `UrlParse` | the URL parser and printer of `httpxp/_urlparse.py`: scanners for its regular expressions, percent-encoding, dot segments, ports, hosts, `urlparse`, `__str__`, `copy_with` |
| `UrlRoundTrip`, `UrlCopy`, `UrlExamples` | what printing, parsing again and copying do to a URL, and URLs that come back changed |
| `UrlLaws` | what the parser computes, told without its own predicates: character by character for each component, and exactly for authorities, ports, addresses and keywords |
| `TextLines`, `Lines`, `Chunker`, `Codecs`, `Deflate` | the incremental decoders of `httpxp/_decoders.py`, and what the lines of a text are |
| `Body` | how `Response` in `httpxp/_models.py` reads its body through them |
| `SendTrace`, `SendLoop` | the authentication and redirect loops of `Client` in `httpxp/_client.py`, and the questions a send may ask, in which order |
| `Redirect`, `Headers` | building redirect requests, and the header multi-dict they are built with |
| `Digest` | nonce counting of `DigestAuth` in `httpxp/_auth.py` |
| `Permits`, `PermitRuns` | permits, stream mutex and cancellation latch of `src/lib.rs` and `src/cancel.rs`, as interleaved steps, and what runs of them come to |
| `Upload` | the upload generator of `src/upload.rs` |
| `Multipart`, `MultipartReader` | the multipart encoder of `httpxp/_multipart.py`, and an independent reader of what it writes |
| `Prelude`, `Text` | shared datatypes, list and character helpers |

Code that works step by step is modelled by classes and methods with loops and is proved against functions of
its input; code made of expressions is modelled by functions. Properties are lemmas about those functions, or the
contracts of the methods.

What the model is given from outside: the library calls of URL parsing (`ipaddress`, `idna`, Unicode digits and
spaces) are the fields of `UrlPort.Library`; content decoders are arbitrary `Codecs.Codec` values; the server, the
event hooks, body reads and the authentication flow are arbitrary functions of the step that asks them and of what
it asks about (`SendTrace.Environment`), so every statement holds for all of them; an upload source is an arbitrary list of
events, and its stop flag may answer differently at each load. Runs of the permit protocol are arbitrary sequences
of actions of any number of senders, readers and closers.

## What was found

Some promises hold only on a condition. Each condition is proved to be exact, and each failure is shown by an input
or a run.

- Printing and parsing a URL again gives the same URL if and only if the printed form is within the length limit and
  not ambiguous, its host has no upper-case letter and is an IPv4 address if it looks like one, and its port is not
  its scheme's default (`UrlRoundTrip.RoundTrip`).
  - The printed form can be over the limit for a short URL (`UrlExamples.PrintedTooLong`).
  - It is ambiguous when there is no authority and the path starts with `//` (after a scheme) or looks like a scheme
    (without one), as in `:a:b` (`UrlExamples.PathReadsAsScheme`).
  - Upper-case letters are left exactly in registered names written with one of `<`, `>`, `[`, `]`, `^`, which are
    quoted after the name is lowered (`UrlCopy.HostStable`), as in `http://a<b` (`UrlExamples.QuotedHostIsLowered`).
  - IDNA encoding also splits labels at ideographic full stops, so it can return what looks like an IPv4 address and
    is none. Such a URL is accepted and its printed form is refused (`UrlExamples.EncodedHostIsRefused`).
  - The default port is looked up under the scheme as written, so `HTTPS://h:443` keeps its port once
    (`UrlExamples.CapitalSchemeKeepsPort`; `httpxp/_urlparse.py`, lines 318-321).
- Where the printed form is short and unambiguous and its host can be read, one more parse reaches a fixed point, with
  one family of exceptions: a default port under a capital scheme that is all the authority there is, before a path
  starting with `//`. Dropping the port of `HTTP://:80//a` turns the path into an authority
  (`UrlRoundTrip.ReparseSettles`, `UrlExamples.PortWasAuthority`).
- `quote` is plain character-wise `percent_encoded` if and only if `%` is safe or there is no escape to keep
  (`Quote.QuotedIsCharwiseIff`).
- Normalising a path prefix first makes no difference, whatever is appended, if and only if the segment loop is left
  with something of the prefix (`UrlPath.NormalizePrefix`). That holds of every absolute prefix
  (`UrlPath.AbsolutePrefix`), and fails for `a/..` (`UrlPath.NormalizeRelativePrefix`). The comment in
  `normalize_path` refers to section 5.2.4 of RFC 3986, but the code drops the slash of a trailing `/..`; the model
  follows the code.
- A read can return a chunk after a close of its response has returned. The reader lets go of the stream mutex before
  it hands the chunk back, and a closer can run to its end in between (`PermitRuns.ChunkReturnedAfterClose`). It
  happens if and only if the reader had taken the chunk and let go of the mutex before the closer took it
  (`PermitRuns.ChunkAfterClose`); nothing is taken off the stream afterwards (`PermitRuns.NoChunkAfterClose`).
- The predicted length of a multipart body is the length of what is sent if and only if the lengths the fields report
  add up to what is read of them (`Multipart.GetContentLength`). They do for files in memory and for regular files
  (`Multipart.HonestFieldsAddUp`). A pipe has a descriptor, whose size is 0, and a compressed file reports its
  compressed size (`Multipart.SendPipe`, `Multipart.SendCompressed`). Iterating again gives the same bytes if and only if
  every file can be repositioned or had nothing left to read (`Multipart.IterateAgain`).
- Digest counts are strictly increasing under one installed challenge and no (installation, count) pair is sent out
  twice, but the count restarts whenever a challenge is installed. A (nonce, count) pair, which section 3.4 of RFC
  7616 wants counted per nonce, is sent out again if and only if two installations that counts were sent out under
  have the same nonce (`Digest.NonceCountRepeats`), as when a server repeats its challenge (`Digest.RepeatedCount`).
- `DeflateDecoder` settles on zlib or raw deflate by the first chunk alone. Its output does not depend on how the network
  cuts a body if and only if zlib judges every body by any start of it as it judges the whole, apart from bodies both
  formats read alike (`Deflate.DeflateIsCutFreeIff`). zlib has to see two bytes, so a raw body whose first byte comes
  alone is refused, though it is read if the first two come together (`Deflate.RawBodyRefused`).
- The boundary of a multipart content type is recovered if and only if it has no semicolon, does not end in white
  space and has no quote at either end (`Multipart.BoundaryRecovered`).

## Model

| member | source | states |
|---|---|---|
| Quote.Utf8ReadsBack | httpxp/_urlparse.py:478-479 | the bytes a character is encoded to are read back, by an independent UTF-8 reader, as that character and nothing else, whatever follows |
| Quote.PercentEncoded | httpxp/_urlparse.py:482-494 | the `rstrip` fast return and the character loop give the same text |
| Quote.NextMatch | httpxp/_urlparse.py:510-512 | the next match is the leftmost escape at or after a position, or there is none |
| Quote.QuoteText | httpxp/_urlparse.py:497-527 | the match loop with its leading, matched and trailing parts computes the left-to-right quoting `Quoted` |
| Quote.QuotePreservesMeaning | httpxp/_urlparse.py:497-527 | percent-decoding the quoted text gives the same bytes as percent-decoding the original, for every text and safe set |
| Quote.QuoteIdempotent | httpxp/_urlparse.py:497-527 | quoting twice is quoting once, for every safe set |
| Quote.QuotedIsCharwise | httpxp/_urlparse.py:497-527 | with `%` in the safe set quoting needs no match loop |
| Quote.QuotedIsCharwiseIff | httpxp/_urlparse.py:497-527 | the match loop equals character-wise encoding exactly when `%` is safe or the text has no escape |
| Quote.QuotedAlphabet | httpxp/_urlparse.py:482-527 | with `%` safe, quoted text consists of unreserved and safe characters |
| UrlPath.NormalizePath | httpxp/_urlparse.py:447-475 | both fast returns agree with the segment loop |
| UrlPath.NormalizedShape | httpxp/_urlparse.py:447-475 | the result has no dot segment, is never longer than the path, and stays empty or absolute if the path was absolute |
| UrlPath.NormalizeIdempotent | httpxp/_urlparse.py:447-475 | normalising twice is normalising once |
| UrlPath.NormalizePrefix | httpxp/_urlparse.py:465-475 | normalising a prefix before something is appended makes no difference, whatever is appended, exactly when the segment loop is left with something of the prefix |
| UrlPath.AbsolutePrefix | httpxp/_urlparse.py:465-475 | every absolute prefix is of that kind |
| UrlPath.NormalizeRelativePrefix | httpxp/_urlparse.py:465-475 | a relative prefix that cancels to nothing, and what it does |
| UrlPath.DotSegmentsCancel | httpxp/_urlparse.py:467-474 | `..` takes back exactly the segment before it, empty or not, `.` does nothing, and `..` at the root does nothing |
| UrlPath.DotFreeFixed | httpxp/_urlparse.py:461-463 | a path without dot segments is its own normal form |
| UrlPath.QuotedSplit | httpxp/_urlparse.py:328-331 | quoting a path cannot bring back a dot segment |
| UrlPath.NormalPathForm | httpxp/_urlparse.py:327-331 | a validated, normalised and quoted path is made of safe characters, passes validation again, and has no dot segment |
| UrlPath.NormalPathAgain | httpxp/_urlparse.py:327-331 | such a path goes through validation, normalisation and quoting unchanged |
| UrlParts.SplitUrlOfPrint | httpxp/_urlparse.py:106-120 | the URL expression reads every tuple of separable parts back from its printed form |
| UrlParts.PrintOfSplitUrl | httpxp/_urlparse.py:106-120 | every text is the printed form of the parts it is split into, and they are separable: the scanner is a bijection |
| UrlParts.SplitAuthorityOf | httpxp/_urlparse.py:124-134 | user information, host and port are read back from a printed authority, whatever `@` the user information holds |
| UrlParts.SplitAuthorityShape | httpxp/_urlparse.py:124-134 | the host is bracketed or free of `:` and `@`, never holds an `@`, and takes its characters from the input |
| UrlPort.ParseIntText | httpxp/_urlparse.py:408-411 | reading a printed port gives the number back |
| UrlRoundTrip.ParseCanonical | httpxp/_urlparse.py:213-345 | every parsed URL is canonical: lower-case scheme, quoted components over their safe sets, a valid host, a valid and normal path |
| UrlRoundTrip.HostAgain | httpxp/_urlparse.py:348-392 | encoding the printed form of an encoded host lowers a registered name once more and changes nothing else; it fails exactly for a host that looks like an IPv4 address and is none |
| UrlRoundTrip.NormalizeAgain | httpxp/_urlparse.py:315-345 | normalising the components of a canonical URL only settles its host and port, or fails exactly for such a host |
| UrlRoundTrip.Reparse | httpxp/_urlparse.py:200-345 | parsing the printed form of an unambiguous canonical URL within the limit gives that URL with its host and port settled, or fails exactly for such a host |
| UrlRoundTrip.AmbiguousReadsOther | httpxp/_urlparse.py:200-345 | an ambiguous printed form never reads back as the URL it was printed from |
| UrlRoundTrip.RoundTrip | httpxp/_urlparse.py:200-345 | for every accepted text: print and parse gives the same URL, field by field, exactly under the five conditions above |
| UrlRoundTrip.SettlingLosesAuthority | httpxp/_urlparse.py:318-328 | settling makes a printed form ambiguous exactly when a default port was the whole authority before a path starting with `//` |
| UrlRoundTrip.ReparseSettles | httpxp/_urlparse.py:200-345 | one more parse is refused exactly for such a host, and is otherwise a fixed point exactly outside that family |
| UrlCopy.CopyWithAnything | httpxp/_urlparse.py:186-198 | `copy_with` with any component keywords: it fails when a given component is unacceptable, one passed on is too long, or host, port or path do not fit; otherwise every component is the one given or the one the URL had, neither quoted again nor split differently on its way through the printed authority |
| UrlCopy.CopyWithChangesOnlyTheGiven | httpxp/_urlparse.py:186-198 | `copy_with` on path, query or fragment changes those components alone, apart from settling host and port |
| UrlCopy.HostStable | httpxp/_urlparse.py:379-386 | an ASCII registered name is stable exactly when it was written without `<`, `>`, `[`, `]`, `^` |
| UrlCopy.ParseAccepts | httpxp/_urlparse.py:213-345 | exactly which texts are accepted; a path is only ever refused where no scheme and no authority text precede it |
| UrlCopy.ParseKeepsMeaning | httpxp/_urlparse.py:298-333 | every parsed component stands for the bytes of the component the text was split into |
| UrlCopy.ParseKeepsPort | httpxp/_urlparse.py:395-419 | the port is the number written unless it is the default of the scheme as written |
| UrlCopy.ParseKeepsHost | httpxp/_urlparse.py:348-392 | the host is the address out of its brackets, an IPv4 address as written, stands for the lowered name, or is what IDNA encoding returned |
| UrlExamples.CapitalSchemeKeepsPort | httpxp/_urlparse.py:318-321 | `HTTPS://h:443` is accepted with its port, and loses it when it is parsed again |
| UrlExamples.QuotedHostIsLowered | httpxp/_urlparse.py:379-386 | `http://a<b` is accepted with an upper-case hex digit in its host, which is lowered when it is parsed again |
| UrlExamples.EncodedHostIsRefused | httpxp/_urlparse.py:352-392 | four numbers joined by ideographic full stops are accepted as a host, and the printed form is refused, though no other condition fails |
| UrlExamples.PrintedTooLong | httpxp/_urlparse.py:217-219 | a short path of spaces is accepted and prints over the limit |
| UrlExamples.PathReadsAsScheme | httpxp/_urlparse.py:200-210 | `:a:b` is accepted, and what it prints as is read as a scheme and a path |
| UrlExamples.PortWasAuthority | httpxp/_urlparse.py:318-328 | `HTTP://:80//a` is accepted, loses its port on the second parse, and has another host on the third |
| UrlLaws.ParsedComponents | httpxp/_urlparse.py:323-345 | every component of a parsed URL, character by character: what the text was split into, the path after its dot segments, where a listed character stays as it is and any other becomes the escapes of its bytes; so `&`, `=`, `/`, `+`, `;` keep their standing wherever the component lets them stand |
| UrlLaws.ParsedHost | httpxp/_urlparse.py:379-386 | so is a registered name, once it is lowered |
| UrlLaws.QuotedIsWritten | httpxp/_urlparse.py:40-98 | what `quote` writes for each of the five safe sets, which are listed mark by mark |
| UrlLaws.WrittenAsItself | httpxp/_urlparse.py:482-494 | text made of listed characters is written as itself |
| UrlLaws.WrittenStands | httpxp/_urlparse.py:482-494 | nothing but listed characters is left in what is written |
| UrlLaws.DecodedEscape | httpxp/_urlparse.py:37 | percent-decoding reads an escape in either case as its byte |
| UrlLaws.SplitAuthorityIff | httpxp/_urlparse.py:124-134 | exactly how an authority is split: user information up to the last `@`, a host in brackets up to the last closing one and any other up to the first colon, a port behind one colon |
| UrlLaws.Ipv4StyleIff | httpxp/_urlparse.py:154 | exactly the hosts of four numbers with full stops between them are taken for IPv4 addresses |
| UrlLaws.ParseIntOf | httpxp/_urlparse.py:408-411 | white space, a sign, digits with single underscores and white space is the number the digits stand for |
| UrlLaws.ParseIntForm | httpxp/_urlparse.py:408-411 | and only text of that form is a number |
| UrlLaws.PrintedPort | httpxp/_urlparse.py:168-175 | a port is printed without leading zeros, and with a sign only if it is negative |
| UrlLaws.DefaultPorts | httpxp/_urlparse.py:414-416 | the five schemes that have a default port, and no others |
| UrlLaws.KeywordsAccepted | httpxp/_urlparse.py:140-149 | exactly which component keywords are accepted: by length, control characters and the characters each component must not hold |
| UrlLaws.CopyWithAddress | httpxp/_urlparse.py:256-261 | `copy_with` takes an IPv6 address with brackets or without and stores it without |
| TextLines.NewlineChars | httpxp/_decoders.py:335 | the boundary characters, one by one |
| TextLines.SplitLinesOf | httpxp/_decoders.py:351 | any cutting of a text into lines, each followed by one break, is what `splitlines` gives: no line holds a boundary character, a break is `\r\n` or one such character, `\r` is not broken off a line feed, and only a last line that is not empty may lack a break |
| TextLines.CutExists | httpxp/_decoders.py:351 | every text has such a cutting |
| TextLines.CutUnique | httpxp/_decoders.py:351 | and only one |
| Lines.ClosedLines | httpxp/_decoders.py:350-362 | text ending at a line boundary that no line feed can extend is split off whole |
| Lines.OpenLines | httpxp/_decoders.py:364-367 | otherwise all lines but the last are complete whatever follows |
| Lines.PrefixLine | httpxp/_decoders.py:358-361 | buffered text without a boundary extends the first line of the next chunk |
| Lines.DecodedEmits | httpxp/_decoders.py:333-369 | what one chunk gives out and leaves, a carried carriage return included, agrees with splitting the whole text, whatever follows |
| Lines.EmitsThen | httpxp/_decoders.py:333-369 | two chunks after one another are as good as one |
| Lines.LineDecoder.Decode | httpxp/_decoders.py:333-369 | the lines given out are exactly those that are complete whatever comes next, and the rest is kept |
| Lines.LineDecoder.Take | httpxp/_decoders.py:345-369 | buffering, joining and popping compute what `DecodedEmits` speaks about |
| Lines.LineDecoder.Flush | httpxp/_decoders.py:371-378 | what is given out at the end is the lines of the text still pending, and nothing stays pending |
| Lines.IterLines | httpxp/_models.py:926-933 | for every list of text chunks the lines are the `splitlines` of the concatenated text, and those of its one cutting into lines and breaks |
| Chunker.SlicesUnique | httpxp/_decoders.py:242-256 | full pieces followed by a shorter tail are the slices of the whole, so slicing does not depend on the cutting |
| Chunker.SlicesShape | httpxp/_decoders.py:244-247 | slices concatenate to the whole and all but the last are full |
| Chunker.Chunker.Decode | httpxp/_decoders.py:237-258 | full pieces are given out, nothing is lost, and the cursor stays equal to the buffer length, below the chunk size |
| Chunker.Chunker.Flush | httpxp/_decoders.py:260-264 | what is left is given out and the buffer is empty |
| Chunker.MemoryFile.Write | httpxp/_decoders.py:241-255 | writing overwrites from the cursor on and keeps what lies behind |
| Codecs.HandedIsRun | httpxp/_decoders.py:216-225 | what a child hands on, chunk by chunk and at flush, is its own run over the chunks and the flush input |
| Codecs.Peel | httpxp/_decoders.py:216-225 | the remaining children see exactly what the first one hands on |
| Codecs.MultiRunIsPipeline | httpxp/_decoders.py:214-225 | if each child's output depends on its bytes only, the whole output is the children's functions applied one after another, flush cascade included |
| Codecs.MultiDecoderIsCutFree | httpxp/_decoders.py:203-225 | a `MultiDecoder` of such decoders is such a decoder again |
| Codecs.MultiCodecRuns | httpxp/_decoders.py:216-225 | running it as one decoder is running the cascade |
| Codecs.MultiDecoder.constructor | httpxp/_decoders.py:208-214 | the coding applied last is undone first |
| Codecs.MultiDecoder.Decode | httpxp/_decoders.py:216-219 | the loop over stateful children computes the cascade and their new states, up to the first error |
| Codecs.MultiDecoder.Flush | httpxp/_decoders.py:221-225 | the loop computes the decode-then-flush cascade |
| Deflate.FirstChunkDecides | httpxp/_decoders.py:67-76 | the first chunk alone decides whether the whole body is read as zlib or as raw deflate |
| Deflate.DeflateIsCutFreeIff | httpxp/_decoders.py:56-82 | the decoded body does not depend on the cutting exactly under the condition above |
| Deflate.RawBodyRefused | httpxp/_decoders.py:67-76 | a raw body is read if its first two bytes come together, and refused if the first comes alone |
| Deflate.DeflateDecoder.Decode | httpxp/_decoders.py:67-76 | the flag, the exception and the call of itself compute one step of that decoder |
| Deflate.DeflateDecoder.Flush | httpxp/_decoders.py:78-82 | the decompressor in use is flushed |
| Body.NonEmptyBytes | httpxp/_decoders.py:238-239 | dropping empty network chunks drops no byte |
| Body.DecodeStops | httpxp/_models.py:897-898 | a decoding error at some chunk is the outcome of the whole read |
| Body.Response.StreamRaw | httpxp/_models.py:896-900 | however the network cuts its bytes, the decoded chunks and what the chunker still holds make up the decoded output so far, in full pieces, or one piece for each decoded chunk; empty chunks never reach the decoder |
| Body.Response.StreamBytes | httpxp/_models.py:884-959 | streaming gives the decoded body cut into slices or, with no size, what each network chunk is decoded to, leaving out what is empty; it counts the network bytes, closes the response exactly when the stream ends without error, and reports consumed, closed, broken and undecodable streams |
| Body.Response.IterBytes | httpxp/_models.py:884-905 | which chunks come from the cache and which from the stream, the same for a given size; a stream that is consumed or closed and not cached raises |
| Body.CachedChunks | httpxp/_models.py:889-892 | the loop over the cached content cuts it as `CutShape` says |
| Body.CutShape | httpxp/_models.py:889-892 | the chunks make up the body and none is empty; with no size there is at most one, with a size all but the last are full |
| Body.Response.Read | httpxp/_models.py:876-882 | the whole body is cached and the response closed; an error caches nothing; a cached body is returned again |
| Body.StreamingAgreesWithCache | httpxp/_models.py:884-905 | however two networks cut the same bytes, the body is the same |
| SendLoop.Client.Read | httpxp/_models.py:876-882 | a body is read at most once, and reading it to the end closes the response; what is asked is logged |
| SendLoop.Client.SendSingle | httpxp/_client.py:1040-1073 | one request, called only while no response is open, adds at most one open response, which answers it |
| SendLoop.Client.RedirectRound | httpxp/_client.py:1015-1038 | one round asks the hooks, sends, and reads the body of a redirect it follows, in that order and no further than the first failure; it raises exactly if the last answer was a failure and goes on exactly to the redirect it followed; it closes its response on every exception and gives it its own copy of the history |
| SendLoop.Client.HandleRedirects | httpxp/_client.py:1003-1038 | the rounds of a leg: the first for the request, each other for the redirect before it, in every run; it raises exactly for a failure in the last round or for want of room, and otherwise returns the last response, whose history is the caller's list followed by the responses that redirected; the caller's list is untouched, every history is a prefix chain, request count and limit are exact, and all is closed on error, all but the returned response otherwise |
| SendLoop.Client.Resume | httpxp/_client.py:986-990 | the flow is given the latest response, may read it, and answers for the request it was made for |
| SendLoop.Client.VisitOnce | httpxp/_client.py:979-999 | one round of the authentication loop: a leg and, if it returned a response, one turn of the flow; it goes on exactly to the request the flow yielded |
| SendLoop.Client.Keep | httpxp/_client.py:992-999 | the response is given a copy, read and appended to the shared list in place, which alters no stored history; it is closed either way |
| SendLoop.Client.AuthTurn | httpxp/_client.py:986-999 | a flow that stops returns the response, still open unless the flow read it; one that raises or fails to read closes it; one that yields has it kept, and only that goes on |
| SendLoop.Client.HandleAuth | httpxp/_client.py:969-1001 | for every flow, even one that never stops yielding: the flow is asked first and once after every leg that returns; each leg but the first is for the request it yielded, and gets one place less; the send raises exactly if a leg does, the flow does, a read fails, or the flow stops before it has yielded anything, and otherwise returns the response after which the flow said Stop; its history is what the earlier legs returned followed by what redirected the last; at most (m+1)(m+2)/2 requests, nothing left open on error |
| SendLoop.Client.Send | httpxp/_client.py:918-967 | the same for a whole send, which then reads the response unless the caller streams or the flow has read it, and raises if that fails; the returned response is closed exactly when it has been read |
| SendTrace.AnswersOfVisits | httpxp/_client.py:979-995 | between two legs the flow answered with the request of the second, a returned response means that its last answer was Stop, and any other failure than the limit is the last thing that was asked |
| SendTrace.NothingAfterFailure | httpxp/_client.py:1015-1038 | in a round and in a turn nothing is asked after a failure |
| SendLoop.RunBoundAt | httpxp/_client.py:1010-1013 | the bound adds up over authentication legs of shrinking length |
| SendLoop.CopyKeeps | httpxp/_client.py:992 | replacing the latest response's history by a copy keeps every chain |
| SendLoop.AppendKeeps | httpxp/_client.py:995 | the in-place append alters no history stored on a response |
| SendLoop.RoundKeeps | httpxp/_client.py:1022-1028 | what one round adds keeps every chain |
| Headers.AssignedValues | httpxp/_models.py:304-326 | after assignment the name has the one new value, every other name keeps its values, and the other entries keep their order |
| Headers.AssignedInPlace | httpxp/_models.py:322-324 | the assigned entry stands where the first entry of its name stood, and later duplicates are gone |
| Headers.AssignedNew | httpxp/_models.py:325-326 | a new name goes to the end |
| Headers.WithoutValues | httpxp/_models.py:328-344 | deletion empties one name and touches no other |
| Headers.AssignedIsFound | httpxp/_models.py:284-302 | what is assigned under a name is found under exactly the spellings that differ in the case of letters, and other names are found as before |
| Headers.DeletedIsNotFound | httpxp/_models.py:284-302 | a deleted name is found under none of them |
| Headers.JoinedSplit | httpxp/_models.py:299-300 | several values are joined by a comma and a space, in order |
| Text.LowerForgetsCase | httpxp/_models.py:291 | lowering forgets the case of ASCII letters and nothing else |
| Headers.UpdatedValues | httpxp/_models.py:274-279 | after `update(h)` a name has the values `h` gives it, or else those it had |
| Headers.UpdatedBySelf | httpxp/_models.py:274-279 | updating headers with themselves changes nothing |
| Headers.OneMoreKey | httpxp/_models.py:276-278 | popping the names one by one removes all of them and nothing else |
| Headers.DeleteStep | httpxp/_models.py:319-320 | deleting the last position not yet deleted filters the list from there on |
| Headers.Headers.Indexes | httpxp/_models.py:313-317 | the collected positions are all positions of the name, in order |
| Headers.Headers.GetList | httpxp/_models.py:258-267 | the loop collects the values of the name, in order |
| Headers.Headers.GetItem | httpxp/_models.py:284-302 | the values joined, KeyError exactly when the name is absent |
| Headers.Headers.DeleteReversed | httpxp/_models.py:319-320 | the reverse deletion loop removes the name's entries from a position on and leaves every other entry in order |
| Headers.Headers.SetItem | httpxp/_models.py:304-326 | the index loops compute the assignment above, and keys stay lower-case |
| Headers.Headers.DelItem | httpxp/_models.py:328-344 | the loop computes the deletion above; KeyError exactly when the name is absent |
| Headers.Headers.Update | httpxp/_models.py:274-279 | the list without the argument's names, followed by the argument, also when the argument is the object itself |
| Redirect.RedirectedValues | httpxp/_client.py:509-616 | every header of a redirected request: which are dropped, replaced or kept, when the method and the body change |
| Redirect.RedirectedMethod | httpxp/_client.py:528-549 | method and body by status: 302 and 303 give GET without the body for every method but HEAD and GET, 301 for POST alone, and every other status changes neither |
| Redirect.AuthorizationOnHop | httpxp/_client.py:580-605 | Authorization is kept on the same scheme, host and effective port and on the upgrade from HTTP on port 80 to HTTPS on 443, and dropped otherwise |
| Redirect.EffectivePorts | httpxp/_client.py:79-93 | the default port may be written or not, under HTTP and HTTPS only |
| Redirect.AuthorizationAlongChain | httpxp/_client.py:580-605 | Authorization reaches the end of a redirect chain, unchanged, exactly when every hop stays on the origin or is a direct HTTPS upgrade |
| Redirect.KeepingStaysAtHome | httpxp/_client.py:64-93 | along such hops the host never changes and at most one upgrade happens |
| Redirect.AuthorizationStaysAtHome | httpxp/_client.py:586-593 | a request that still carries the header is at the first request's origin or at its HTTPS upgrade from port 80 to 443 |
| Redirect.MethodAlongChain | httpxp/_client.py:528-549 | the method at the end is GET exactly if it was, or some hop has a status that turns the first method into GET, and else the first one; the body is there exactly if it was and the method is the first one |
| Digest.DigestAuth.BuildHeader | httpxp/_auth.py:255-301 | an unknown algorithm raises before a count is taken and an unusable qop after; a count is printed exactly with `auth` |
| Digest.DigestAuth.Start | httpxp/_auth.py:193-199 | a flow uses the installed challenge, if any, before its first request |
| Digest.DigestAuth.Resume | httpxp/_auth.py:199-222 | a flow answers at most one challenge, which it installs and counts from 1; no step of it changes another flow |
| Digest.Interleave | httpxp/_auth.py:193-222 | for every schedule the object holds what the account of that schedule says |
| Digest.PlayedOk | httpxp/_auth.py:193-222 | over every interleaving of any number of flows the counts are sent out in order and no flow dispatches more than two requests |
| Digest.UsesIncrease | httpxp/_auth.py:270-272 | counts are strictly increasing under one installation, and installations never go back |
| Digest.CountsFromOne | httpxp/_auth.py:215-219 | under one installation the counts sent out run from 1 without gaps |
| Digest.UsesDistinct | httpxp/_auth.py:214-222 | no (installation, count) pair is sent out twice |
| Digest.NonceCountRepeats | httpxp/_auth.py:296-299 | a (nonce, count) pair is sent out again exactly when two installations that counts were sent out under share their nonce |
| Digest.RepeatedCount | httpxp/_auth.py:214-222 | a schedule in which it is: a server that repeats its challenge |
| Digest.NcTextShape | httpxp/_auth.py:270 | the count prints as eight digits exactly below 2^32, and reads back as itself |
| Permits.NextKeeps | src/lib.rs:101-158 | every step of every sender, reader and closer keeps the invariant |
| Permits.PermitsAddUp | src/lib.rs:227-325 | in every reachable state free permits, sends holding one and responses holding one make up the limit; a response whose mutex is free has no stream exactly when its permit is released; none is released twice |
| Permits.AcquireIff | src/lib.rs:228-246 | in every reachable state a waiting send can go on exactly while fewer permits than the limit are held by sends and responses, unless the client is closed; it takes one, and none if it gives up |
| PermitRuns.ChunkAfterClose | src/lib.rs:103-151 | a read that returns after some close of its response has returned gives a chunk exactly when it had taken the chunk and let go of the mutex before that closer took the mutex |
| PermitRuns.ChunkReturnedAfterClose | src/lib.rs:123-149 | a run in which that happens |
| PermitRuns.NoChunkAfterClose | src/lib.rs:142-150 | after a close has returned nothing is taken off the stream any more, however the run goes on |
| PermitRuns.LateReadGetsNoChunk | src/lib.rs:112-118 | a read called after the latch was set never has a chunk |
| PermitRuns.AsleepWakesIffSet | src/cancel.rs:19-32 | a reader asleep in its select can go on by itself exactly when its latch is set: no cancel sent between subscribing, looking at the signal and falling asleep is lost |
| PermitRuns.CloserNotStuck | src/lib.rs:142-150 | a closer waiting for the mutex can take it, or its holder has an enabled step towards giving it up, for a sleeping holder the wake-up above |
| PermitRuns.HolderStep | src/cancel.rs:25-32 | once the latch is set only its own steps move the holder, and each, through the loop of `cancelled` or the stream, brings it nearer to the end |
| PermitRuns.HolderLeaves | src/lib.rs:103-136 | in any run the holder takes at most seven more steps, and has left the mutex before the last |
| Permits.ClosedClientAdmitsNone | src/lib.rs:335-342 | after the client is closed no send starts and none that waits for a permit gets one, in any run |
| PermitRuns.ReadDelivers | src/lib.rs:112-124 | an undisturbed read delivers the chunk that comes and keeps stream and permit |
| PermitRuns.ReadResultOf | src/lib.rs:103-137 | over every run: a read settles on a chunk exactly when it polled one, on an error exactly when it polled one or saw its latch set, and on nothing exactly when it found the slot empty or polled the end |
| PermitRuns.ReadEnds | src/lib.rs:123-136 | an undisturbed read that polls an error or the end returns just that, empties the slot and gives the permit back once |
| PermitRuns.ReadCancelled | src/lib.rs:112-122 | so does one whose latch is set |
| PermitRuns.SendHandsOver | src/lib.rs:307-323 | a send that returns hands its latch, a full stream and its permit to the response |
| PermitRuns.CancelSetsOne | src/cancel.rs:19-21 | cancelling sets one latch, closing that of its response, and no other |
| PermitRuns.CloseReturnsPermit | src/lib.rs:142-157 | an undisturbed close empties the stream slot, gives a held permit back once and lets the mutex go |
| Upload.Upload.constructor | src/upload.rs:30-44 | a buffer replaces the iterator |
| Upload.Upload.Next | src/upload.rs:45-113 | one step yields 1 to 65536 bytes off the front of what is left, full unless the pending buffer is used up, and only if no load of the stop flag found it set; every end is published as Done, and an unstopped end means nothing was left |
| Upload.Upload.Pull | src/upload.rs:65-110 | pulling the source loses no byte; the stop flag, an exception and a dead task end the upload each in its own way |
| Upload.Drain | src/upload.rs:45-113 | for every source and every stop timing the chunks make up a prefix of the source, all of it unless stopped, and the recorded error is the source's |
| Multipart.EscapedValueStaysQuoted | httpxp/_multipart.py:24-42 | no raw quote or line break is left inside a quoted parameter |
| MultipartReader.EscapedAsItIs | httpxp/_multipart.py:24-42 | a name is written as it is exactly if it has no quote, no backslash and no control character but escape |
| MultipartReader.Replacements | httpxp/_multipart.py:24-30 | and what replaces those |
| MultipartReader.BodyReadsBack | httpxp/_multipart.py:258-263 | a reader written from section 5.1.1 of RFC 2046 finds every field in the body, header and content, in order, if no content holds the delimiter and no header a blank line |
| MultipartReader.NameReadsBack | httpxp/_multipart.py:186-201 | the escaped name is read back from every field's header |
| MultipartReader.FilenameReadsBack | httpxp/_multipart.py:186-201 | so is the filename, and none is read where there is none |
| MultipartReader.HeadersReadBack | httpxp/_multipart.py:196-199 | the further headers of a file are read back in order, whatever its names |
| MultipartReader.DataHeadIsClean | httpxp/_multipart.py:90-97 | the header of a data field never holds a blank line |
| MultipartReader.EncodedInjective | httpxp/_multipart.py:42 | different texts are encoded differently |
| Multipart.GetLength | httpxp/_multipart.py:105-108 | a field's predicted length, unknown exactly for a file without descriptor that cannot be repositioned; the cursor is put back |
| Multipart.GetContentLength | httpxp/_multipart.py:265-283 | the prediction is unknown exactly when some field reports no length, and otherwise the length of the body exactly when the reported lengths add up to what will be read |
| Multipart.HonestFieldsAddUp | httpxp/_multipart.py:265-283 | they add up for data fields, byte strings, files in memory and regular files |
| Multipart.ReadAll | httpxp/_multipart.py:203-217 | a file that can be repositioned is read whole wherever its cursor stood, any other from its cursor, in chunks of 1 to 65536 bytes; the cursor ends at the end |
| Multipart.IterChunks | httpxp/_multipart.py:258-263 | the chunks make up the body as a function of the fields and of where the cursors stood, for every mixture of files, one file in several fields included |
| Multipart.IterateAgain | httpxp/_multipart.py:258-263 | iterating again gives the same bytes exactly when every file can be repositioned or had nothing left to read |
| Multipart.SendOne | httpxp/_multipart.py:258-283 | for one file the prediction is off by exactly as much as what the file reports |
| Multipart.SendPipe | httpxp/_utils.py:100-104 | a pipe that cannot be repositioned is predicted short by all of its content |
| Multipart.SendCompressed | httpxp/_utils.py:100-104 | a compressed file is predicted with its compressed size |
| Multipart.FileObject.PeekLength | httpxp/_utils.py:95-117 | the size of the descriptor if there is one, else the length found by going to the end and back, else nothing |
| Multipart.BoundaryRead | httpxp/_multipart.py:56-67 | what the parser reads from a printed content type, whatever the boundary |
| Multipart.BoundaryOfAny | httpxp/_multipart.py:56-67 | what it reads from any content type: nothing unless it is multipart, else what the first section says that names the boundary, in letters of either case |
| Multipart.SectionsOf | httpxp/_multipart.py:63-64 | the sections are exactly the pieces between the semicolons |
| Multipart.BoundaryRecovered | httpxp/_multipart.py:56-67 | the boundary is recovered exactly under the condition above |

## Left out

- The asynchronous client, `aread` and the `aiter_` methods, which repeat the synchronous code line by line.
- The URL keywords `netloc`, `username`, `password` and `raw_path`, and integer ports: they are rewritten into the component keywords that are modelled.
- The messages of `InvalidURL`, and which of several faults of one URL is reported.
- The 4300-digit limit of Python's `int`, lone surrogates in text, and IPv6 scope identifiers.
- Addresses, IDNA and Unicode digits and spaces beyond ASCII are parameters; that `idna.encode` returns lower-case ASCII labels, which may look like an IPv4 address, is part of its type.
- UrlCopy.HostStable: for names that reach the ASCII branch with characters the scanners can leave in a host.
- Compression libraries: a decompressor is an arbitrary state machine, and that its output does not depend on the cutting is a hypothesis. `BrotliDecoder` and `ZStandardDecoder`, which wrap one each.
- Decoding text (`Response.text`, charset detection, `TextDecoder`): `Lines.IterLines` starts from text chunks.
- Generators are run to their end; a body left half read, and the response its caller then closes, are not modelled.
- Chunk sizes below one, which raise or never end in the original.
- `Client.send` on a client that has been closed, which raises before anything is asked.
- SendLoop: request and response objects are indexes into lists the client owns; building URLs, cookies, elapsed time, logging and `auth_flow.close()` are not modelled, single-request bookkeeping after the response arrives does not fail, `close()` does not raise, event hooks may raise but change nothing, and a flow does not catch an error of a body read it asked for.
- Redirect: resolving the Location header (`_redirect_url`) and the cookie store are inputs of each hop; header text is ASCII.
- `Headers.encoding`, `get_list` with `split_commas`, equality and construction from other mappings.
- Digest: hash functions, header fields other than the count, and parsing of challenges; steps between yields are atomic. A count is counted where a flow yields its request; redirects that keep the header send it again.
- Permits: mutexes, semaphore and latch are idealised (no poisoning, no fairness); dropping a response object without closing it, web sockets and time-outs beyond giving up are not modelled. The operations interleave, so they are modelled as steps on values and not as methods.
- Upload: the watchdog's timing, and sources that never end.
- Multipart: a file whose size or contents change while it is sent.
- Content-type guessing, converting form values to bytes, and random boundaries.
- Query parameters, time-outs, limits, status codes and other configuration, which carry no algorithm.
