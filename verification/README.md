# A verified model of megatools

megatools is a client for the Mega.co.nz storage service. This project models the algorithms in it that do
not depend on the network, a disk or a terminal, and proves what they are for. One module follows one part
of the program:

- `NumberTheory`, `Rsa`, `RsaKey`: RSA with recombination by the Chinese remainder theorem (sections 5.1.1
  and 5.1.2 of RFC 8017), the MPI key format, and the key object that loads, exports and uses keys.
- `Bytes`, `Base64`, `Aes`, `AesKey`: byte strings and big-endian numbers, the URL form of Base64 (section 5
  of RFC 4648, without padding), block, CBC and counter modes (section 6.5 of NIST SP 800-38A) over an
  abstract keyed permutation.
- `ChunkedMac`, `Transfer`: the streaming MAC over growing chunks, node keys, upload and download.
- `Http`: the HTTP client as a state machine over one connection that may be kept (section 6.3 of RFC 9112).
- `Paths`, `NodeTree`: lexical path simplification, path rendering into a bounded buffer, listing by string
  prefix, lookup, and parent pointers.
- `JsonLexer`, `JsonTokens`, `JsonGrammar`, `JsonStrings`, `JsonNumbers`, `JsonAccess`: the JSON library. The
  token rules, an automaton proved equal to them, the generated code proved to refine the automaton, the
  validator, string decoding and escaping, and the iterators.
- `JsonData`, `JsonGen`, `JsonFields`, `JsonPretty`: data as trees, the generator over any well-nested run of
  calls, named members, and the pretty printer.
- `JsonRuns`, `JsonCompact`, `JsonBuild`, `JsonTemplate`: longest runs of tokens, the compactor and the filling
  in of templates, which both copy such runs.
- `NodeAttrs`, `CacheNodes`, `CacheKeys`, `Cache`, `CacheText`, `SessionCache`: node attributes and the session
  cache, from the session object through JSON, padding, CBC and Base64 and back, and the text of the cache.

Conventions. AES is a pair of functions with `decrypt(key, encrypt(key, b)) == b`; big numbers are `nat` or
`int`; random bytes, the clock and the socket are parameters, and so is the memory behind the terminator of a
string that is encrypted. JSON texts are `string`: a character is a byte, and reading at the end of the text gives
NUL, as in a C string. Where the program changes an object or a buffer step by step, the model does so too, and
each such method is tied to a function whose properties are proved as lemmas.

Findings that the proofs turn on:

- `rsa_decrypt` does not return c^d mod pq when that number is below p, but that number plus pq, because the
  branch for xq <= xp yields t = q and never 0 (`Rsa.RsaDecryptAddsModulus` has an input).
  `mega_rsa_key_decrypt` therefore refuses every message whose number is below p (`Rsa.RsaDecryptExact`,
  `RsaKey.MessageRoundTrip`).
- Reducing d modulo p-1 is wrong exactly when p divides c, d is positive and d is a multiple of p-1
  (`Rsa.RsaDecryptCongruent`, `Rsa.RsaDecryptDiffers`).
- `path_simplify` returns the empty string for an absolute path such as `/a/..` that leads to the root
  (`Paths.SimplifyToEmpty`, `Paths.SimplifyParentOfTop`).
- `escape_string` escapes a form feed only when it stands alone between characters that must be escaped; in
  a longer run it is copied, because the rule for runs matches more. Decoding still gives it back
  (`JsonStrings.DecodeOfEscape`, `JsonStrings.FormFeedEscapes`).
- The run rule of `s_json_compact` can match more than token by token scanning: `1.23.4` is one run, as `1.2`
  and `3.4`. This is why the compactor is modelled with all states the automaton can be in
  (`JsonRuns.RunEndLongest`, `JsonCompact.NumbersInOneRun`).
- In a template of `s_json_buildv` the run in front of an identifier goes on into it when it starts with true,
  false, null, or a minus sign and a digit, so that `{nullable:1}` is cut after `null`
  (`JsonTemplate.RunStopsAtName`). Holes side by side merge into one token (`JsonTemplate.HolesMerge`).
- String encryption is described as zero padding, but the size is rounded up before the copy, so bytes from behind
  the terminator become part of the plaintext unless the length modulo 16 is 14 or 15 (`Aes.ZeroPaddedAlways`,
  `Aes.NeighboursOfA`). The ciphertext then depends on them (`Aes.SameCiphertext`). What is read back does not: it
  is taken as a C string, and the theorems on names and on the cache hold for every content of the memory.
- `s_json_pretty` indents an array by its first item and takes the indent back by its last one, so that depth is
  that of the nesting only when both are objects or neither is (`JsonPretty.PrettyIsTree`, `JsonPretty.UnevenDrifts`).
  Popping the indent at zero does nothing, because the length is unsigned (`JsonPretty.Pop`).

## Model

| member | source | states |
|---|---|---|
| Rsa.RecombineExact | mega/mega-rsa-key.c:154-170 | Garner's recombination of the residues of a number m below pq returns m when m >= p and m + pq when m < p: the branch taken when xq <= xp uses t = q and never t = 0 |
| Rsa.RsaDecryptExact | mega/mega-rsa-key.c:142-170 | with M = c^d mod pq, decryption returns M when M >= p and M + pq when M < p, whenever both exponent reductions are harmless |
| Rsa.RsaDecryptCongruent | mega/mega-rsa-key.c:142-170 | decryption is congruent to c^d modulo pq if and only if, for each prime, d is not a multiple of the prime less one, or the prime does not divide c, or d is 0 |
| Rsa.RsaDecryptDiffers | mega/mega-rsa-key.c:142-152 | an input where the condition fails: c = 3, d = 2, p = 3, q = 5, u = 2 gives 4 where 3^2 mod 15 is 9 |
| Rsa.RsaDecryptAddsModulus | mega/mega-rsa-key.c:154-170 | an input for the branch with t = q: c = 0, d = 1, p = 3, q = 5, u = 2 gives 15 where 0 mod 15 is 0 |
| Rsa.KeyPairFromTotient | mega/mega-rsa-key.c:511-543 | exponents inverse modulo (p-1)(q-1) and u inverse to p modulo q make a key pair for the round trip |
| Rsa.RsaRoundTrip | mega/mega-rsa-key.c:142-204 | for a key pair and m < pq, decrypting the encryption of m gives m when m >= p and m + pq when m < p |
| RsaKey.MpiRoundTrip | mega/mega-rsa-key.c:75-94 | a number written in MPI form anywhere in a buffer is read back with the offset just past it, if and only if its bit count is below 65536 |
| RsaKey.MpiLayout | mega/mega-rsa-key.c:75-94 | the bit count in two bytes, most significant first, and as many bytes as it needs, most significant first, that weigh up to the number |
| RsaKey.FitsHeader | mega/mega-rsa-key.c:90-92 | a bit count fits the header exactly for numbers below 2^65535 |
| RsaKey.ReadMpiList | mega/mega-rsa-key.c:420-430 | a list of such numbers, with anything before and after it, is read back number by number |
| RsaKey.PublicRoundTrip | mega/mega-rsa-key.c:403-462 | the exported public key text decodes to the same modulus and exponent |
| RsaKey.PrivateRoundTrip | mega/mega-rsa-key.c:345-501 | an exported private key, with any padding bytes, decrypts to the same numbers |
| RsaKey.MessageRoundTrip | mega/mega-rsa-key.c:230-333 | decrypting the encryption of a full-size message returns the whole message with its leading zero bytes when its number is at least p, and nothing exactly when it is below p |
| RsaKey.Buffer.AppendMpi | mega/mega-rsa-key.c:82-94 | appends the MPI form of the number to the buffer, in place, and nothing for a missing number |
| RsaKey.MegaRsaKey.LoadPubk | mega/mega-rsa-key.c:403-438 | succeeds exactly when both numbers fit the decoded text; the fields are the numbers that were read before a failure |
| RsaKey.MegaRsaKey.LoadEncPrivk | mega/mega-rsa-key.c:345-392 | succeeds exactly when the text decrypts to whole blocks that hold four numbers; a failure leaves those read so far |
| RsaKey.MegaRsaKey.GetPubk | mega/mega-rsa-key.c:448-462 | the text of the numbers that are there, in MPI form and in order; nothing exactly when there is none |
| RsaKey.MegaRsaKey.GetEncPrivk | mega/mega-rsa-key.c:473-501 | the encrypted text of the numbers that are there, padded to whole blocks with the random bytes; nothing exactly when there is none |
| RsaKey.MegaRsaKey.Encrypt | mega/mega-rsa-key.c:230-266 | data that fit are filled up with random bytes to the message size and encrypted; others are refused |
| RsaKey.MegaRsaKey.Decrypt | mega/mega-rsa-key.c:277-333 | the decrypted number right-aligned in the message size, or nothing when the text holds no number or the result is too large |
| RsaKey.AlignExactly | mega/mega-rsa-key.c:296-330 | the bytes handed out weigh up to the number: without a modulus of a byte or more with no leading zero, with one exactly as many as its whole bytes less one, and nothing if and only if the number needs more |
| RsaKey.ListOfFour | mega/mega-rsa-key.c:473-490 | the numbers of a private key stand one after the other |
| RsaKey.ExportImport | mega/mega-rsa-key.c:345-501 | a key object that loads what another one exported ends up with the same p, q, d, u, m and e |
| RsaKey.EncryptThenDecrypt | mega/mega-rsa-key.c:230-333 | data encrypted with one key object and decrypted with another: the whole message comes back, the data at its front, when its number is at least p, and nothing when it is below p |
| Base64.UrlDecodeOfEncode | mega/utils.c:30-95 | decoding undoes encoding for every byte string, through the translation, the stripped padding and the rule that restores it |
| Base64.UrlEncodeShape | mega/utils.c:40-58 | the encoded text has (4n+2)/3 characters, all of the URL alphabet and none of them padding |
| Base64.UrlEncodeAt | mega/utils.c:40-58 | character k of the text is the digit of the URL alphabet for the bits 6k to 6k+5 of the data, zeros behind the end |
| Base64.SextetsWeigh | mega/utils.c:40-58 | four such digits in base 64 weigh what the three bytes weigh in base 256 |
| Base64.UrlAlphabet | mega/utils.c:43-51 | the digits are A-Z, a-z, 0-9, - and _ in this order, and each is read back as its value |
| Base64.EncodeText | mega/utils.c:40-58 | standard Base64 is the same text with + and / for - and _, and padding up to whole groups |
| Base64.Base64UrlEncode | mega/utils.c:30-59 | the in-place translation computes the encoding; decoding it gives the data back, and empty data are refused |
| Base64.Base64UrlDecode | mega/utils.c:68-95 | the in-place translation and the padding of (3 * length) & 3 characters compute the decoding |
| Aes.EcbRoundTrip | mega/mega-aes-key.c:342-375 | block-wise decryption undoes block-wise encryption |
| Aes.EcbBlock | mega/mega-aes-key.c:342-353 | block i of the ciphertext is the encryption of block i of the plaintext |
| Aes.CbcRoundTrip | mega/mega-aes-key.c:544-577 | CBC decryption undoes CBC encryption, whatever the starting vector |
| Aes.CbcBlock | mega/mega-aes-key.c:544-555 | block i of the ciphertext is the encryption of block i of the plaintext mixed with block i - 1 of the ciphertext, or with the starting vector |
| Aes.EncryptStringRoundTrip | mega/mega-aes-key.c:618-675 | whatever stands in memory behind the string, string encryption decrypts to the plaintext that was built, and that plaintext read as a C string is the string |
| Aes.EncryptStringBlocks | mega/mega-aes-key.c:555-675 | the text stands for the CBC ciphertext of the plaintext with sixteen zero bytes as the starting vector, so the first block is encrypted as it is |
| Aes.ZeroPaddedExactly | mega/mega-aes-key.c:662-671 | the plaintext is zero-padded if and only if the bytes copied from behind the terminator are zero: as many as the rounded size less the length less two |
| Aes.ZeroPaddedAlways | mega/mega-aes-key.c:662-671 | the plaintext is zero-padded for every content of the memory if and only if the length modulo 16 is 14 or 15 |
| Aes.NeighboursOfA | mega/mega-aes-key.c:662-671 | an input: for the string "a" thirteen bytes of the plaintext are those behind the terminator |
| Aes.SameCiphertext | libtools/oldmega.c:496-513 | two encryptions of a string under a key are the same if and only if the bytes copied from behind its terminator were the same |
| Aes.CtrConcat | mega/mega-aes-key.c:706-714 | encrypting two pieces one after the other, continuing the counter, is encrypting them together |
| Aes.CtrInvolutive | mega/mega-aes-key.c:706-714 | counter mode is its own inverse at every position of the stream |
| Aes.CountersDistinct | mega/mega-aes-key.c:706-714 | no counter block is used twice within 2^128 blocks of a stream |
| AesKey.CounterSeek | mega/mega-aes-key.c:685-695 | the counter block set up for position k is the block for position 0 advanced k times |
| AesKey.CtrSeek | mega/mega-aes-key.c:685-714 | starting at block k gives the same output as the stream from block 0 after 16 k bytes |
| AesKey.CtrStream.Process | mega/mega-aes-key.c:706-714 | the state kept between calls (next counter, keystream block, how much of it is used) produces the stream from wherever the last call left off |
| AesKey.CtrStream.Setup | mega/mega-aes-key.c:685-695 | nonce and big-endian position make the counter, and the unused keystream is forgotten |
| AesKey.MegaAesKey.EncryptRaw | mega/mega-aes-key.c:342-353 | whole blocks are encrypted into the output buffer one by one, other lengths leave it alone, and nothing past the data is written |
| AesKey.MegaAesKey.DecryptRaw | mega/mega-aes-key.c:364-375 | the same for decryption |
| AesKey.MegaAesKey.EncryptStringCbc | mega/mega-aes-key.c:655-675 | the in-place copy of all but one of the rounded number of bytes over zeros gives the plaintext of the string and the memory behind it, encrypted and encoded |
| AesKey.MegaAesKey.LoadEncUbase64 | mega/mega-aes-key.c:312-331 | a wrapped key is taken exactly when the text decodes to sixteen bytes; otherwise the key stays as it was |
| AesKey.ExportImportKey | mega/mega-aes-key.c:312-331 | a key exported under another key and loaded with it is the same key |
| ChunkedMac.ChunkOffClosedForm | mega/mega-chunked-cbc-mac.c:63-77 | chunk k starts at 128 KiB times k(k+1)/2 up to k = 8 and 1 MiB apart after that |
| ChunkedMac.GetChunkOff | mega/mega-chunked-cbc-mac.c:68-77 | the summing loop computes the chunk offset |
| ChunkedMac.FoldAfterClosed | mega/mega-chunked-cbc-mac.c:79-92 | the MAC of a file can be resumed after any number of closed chunks |
| ChunkedMac.MacByChunks | mega/mega-chunked-cbc-mac.c:79-92 | without data the MAC is sixteen zero bytes; the last chunk, zeros after it up to whole blocks, adds its CBC-MAC to the MAC of the chunks before it, for every file |
| ChunkedMac.CbcMacIsLastBlock | mega/mega-chunked-cbc-mac.c:153-173 | the MAC of a chunk is the last block of its CBC encryption |
| ChunkedMac.MegaChunkedCbcMac.Absorb | mega/mega-chunked-cbc-mac.c:153-173 | each byte keeps the fields in step with the bytes absorbed: position, next boundary = offset of the next chunk, chunk MAC and file MAC; a chunk is closed once, at its boundary |
| ChunkedMac.MegaChunkedCbcMac.Setup | mega/mega-chunked-cbc-mac.c:116-137 | everything is reset except the finished flag; an unfinished object stands for no bytes |
| ChunkedMac.MegaChunkedCbcMac.CloseChunk | mega/mega-chunked-cbc-mac.c:79-92 | the chunk MAC is mixed into the file MAC, the chunk MAC restarts from the IV, the next boundary moves by the next chunk size |
| ChunkedMac.MegaChunkedCbcMac.Update | mega/mega-chunked-cbc-mac.c:147-174 | absorbs the data after what was absorbed before, and nothing once finished |
| ChunkedMac.MegaChunkedCbcMac.Finish | mega/mega-chunked-cbc-mac.c:183-219 | returns the one-shot MAC of all absorbed bytes, each chunk zero-padded, without closing a chunk twice; asking again repeats it |
| ChunkedMac.MacOfPieces | mega/mega-chunked-cbc-mac.c:116-219 | for every split of the data into updates the result is the one-shot MAC of the whole: sixteen zero bytes without data, and for data of one chunk the encryption of its CBC-MAC alone |
| Transfer.UnpackOfPack | libtools/oldmega.c:1028-1082 | unpacking a packed node key gives back the key, the nonce and the folded MAC |
| Transfer.NodeKeyLayout | libtools/oldmega.c:1028-1058 | the nonce is at byte 16 and the folded MAC at byte 24 of a node key; the first half is the key mixed with the second half byte by byte |
| Transfer.UnpackedParts | libtools/oldmega.c:1060-1082 | what is read from any node key: its halves mixed, and the two parts of the second half |
| Transfer.CipherByte | libtools/oldmega.c:2927-2948 | byte i of a file is mixed with byte i mod 16 of an encrypted block: the nonce, then i / 16 in eight bytes, most significant first |
| Transfer.DownloadOfUpload | libtools/oldmega.c:3056-3306 | decrypting the uploaded bytes with the packed node key gives the file, and its MAC matches the stored one |
| Transfer.TransferData.PutProcess | libtools/oldmega.c:2927-2948 | each piece is encrypted where the counter stands and absorbed by the MAC as plaintext |
| Transfer.TransferData.GetProcess | libtools/oldmega.c:3155-3182 | each piece is decrypted where the counter stands and its plaintext is absorbed by the MAC |
| Transfer.Upload | libtools/oldmega.c:2950-3101 | for every way the file is read in pieces: the ciphertext, and the node key with the folded MAC of the file, its parts at their places |
| Transfer.Download | libtools/oldmega.c:3184-3306 | for every way the data arrive in pieces: the plaintext under the unpacked key, and the MAC test passes if and only if bytes 24 to 31 of the node key are the folded MAC of the plaintext under its key and doubled nonce; for an empty file if and only if they are zero |
| Transfer.UploadThenDownload | libtools/oldmega.c:2927-3306 | whatever the pieces on either side, the download is the file and the MAC check passes |
| Http.MegaHttpClient.DoConnect | mega/mega-http-client.c:184-226 | a fresh connection to the current host, port and protocol, or none |
| Http.MegaHttpClient.DoSendHeaders | mega/mega-http-client.c:372-401 | the request head goes on the wire and the byte count of the body starts at its length |
| Http.MegaHttpClient.DoReceiveHeaders | mega/mega-http-client.c:262-365 | reading starts at a response head, never inside a body; the byte count starts at the announced length; no length or a bad head fails |
| Http.MegaHttpClient.Walk | mega/mega-http-client.c:457-541 | the loop ends, and reaches the target exactly when every step on the way can succeed; otherwise the client is failed and disconnected |
| Http.MegaHttpClient.GotoState | mega/mega-http-client.c:420-544 | succeeds only for allowed transitions that can be completed, every other one ends in the failed state, and no state is left unhandled |
| Http.MegaHttpClient.GotoInitConnected | mega/mega-http-client.c:436-455 | an idle connection is reused as it is, otherwise a new one is made; with a request under way it fails |
| Http.MegaHttpClient.Post | mega/mega-http-client.c:627-676 | an unreadable URL changes nothing; it succeeds exactly when an idle connection leads to the same server, host names compared letter by letter without case, or a new connection comes about while no request to that server is under way; the connection is kept only for the same server, and then has no unread byte of an earlier response |
| Http.MegaHttpClient.Write | mega/mega-http-client.c:786-824 | bytes written plus bytes expected stay equal to the request length; more than announced fails; when no input or output fails, a write succeeds exactly in the two states that allow it and within the announced length |
| Http.MegaHttpClient.Read | mega/mega-http-client.c:838-901 | bytes returned plus bytes expected stay equal to the response length, the bytes are the next ones of the body, and the end of the body leaves no connection exactly when the server named no connection option or `close` in any letter case, and keeps it otherwise; when nothing fails, reading succeeds exactly when a response can be reached; what was read from the connection is what was there before, the head of this response, and the bytes returned so far |
| Http.MegaHttpClient.Close | mega/mega-http-client.c:913-932 | only an idle kept connection survives a close that is not forced |
| Http.MegaHttpClient.GetResponseLength | mega/mega-http-client.c:944-965 | the announced length of the response, or failure |
| Http.ReachesResponse | mega/mega-http-client.c:457-541 | when no input or output fails, a response is reached if and only if the request body is complete and an accepted head with a length comes next |
| Http.CloseMeaning | mega/mega-http-client.c:253-260 | the server wants to close if and only if it names no option or the word close, compared letter by letter without case |
| Http.MegaHttpClient.PostSimple | mega/mega-http-client.c:690-772 | one request with the whole body is added to what was written on the connection that is used, one accepted response head that announces the length of the result and the bytes of the result to what was read, and nothing else; the result is no longer than the limit; when no connection, input or output fails and a whole response of an accepted size comes next, there is a result |
| Http.RequestsAnswered | mega/mega-http-client.c:372-541 | whatever happened before, the wire holds complete requests and then the current one: as many request heads were sent as response heads were read, and one more while a response is awaited |
| Http.RunCalls | mega/mega-http-client.c:420-932 | over any sequence of calls, with servers that frame their responses, the invariant holds: a connection exists exactly in connected states, leads to the current server, its bytes are accounted for, its requests are complete and in step with the responses, and an idle one stands at a response boundary |
| Paths.PathSanitizeSlashes | libtools/oldmega.c:1497-1519 | the copying loop drops every slash after a slash and a final one |
| Paths.SanitizeShape | libtools/oldmega.c:1497-1519 | no two slashes side by side, none at the end but that of the root, absolute when the path was, and the same names |
| Paths.KeepElement | libtools/oldmega.c:1545-1577 | the in-place loop body with its counters keeps exactly the elements the rules say |
| Paths.PathSimplify | libtools/oldmega.c:1530-1585 | the loop over elements, overwriting in place, computes the simplified path |
| Paths.SimplifyMeaning | libtools/oldmega.c:1530-1585 | from every directory the simplified path leads to where the path leads, `..` staying at the root; the result of an absolute path is read from the root |
| Paths.SimplifyShape | libtools/oldmega.c:1530-1585 | a relative result is a run of `..` followed by plain names and an absolute one is plain names below the root |
| Paths.SimplifyToEmpty | libtools/oldmega.c:1552-1560 | an absolute path becomes empty exactly when it leads to the root and is not only slashes |
| Paths.SimplifyParentOfTop | libtools/oldmega.c:1552-1560 | an input for which that happens: `/a/..` |
| Paths.DotsInPaths | libtools/oldmega.c:1545-1577 | a dot is dropped and two dots go up, and two dots at the front of a relative path stay, for any plain names around them |
| Paths.SimplifyIdempotent | libtools/oldmega.c:1530-1585 | simplifying twice is simplifying once |
| NodeTree.GetPath | libtools/oldmega.c:3603-3650 | succeeds exactly when the path and its NUL fit, writes exactly them, and never writes past the length it is given |
| NodeTree.Ls | libtools/oldmega.c:2481-2512 | returns the nodes that pass the prefix test, last one first |
| NodeTree.ListedAppend | libtools/oldmega.c:2492-2512 | the nodes of a list come out last one first: those of the second part of a list in front of those of the first |
| NodeTree.ListingIsDescent | libtools/oldmega.c:2481-2512 | on an absolute path the string prefix test holds exactly for the nodes whose names go below the directory the path means, or directly in it |
| NodeTree.ListingHasAncestor | libtools/oldmega.c:2481-2512 | recursive listing below the root lists a node exactly when one of its proper ancestors is at the simplified path |
| NodeTree.LsIsDescent | libtools/oldmega.c:2492-2512 | the nodes returned for an absolute path are exactly those below the directory, or directly in it, whose path fits the buffer |
| NodeTree.Stat | libtools/oldmega.c:2517-2538 | the first node whose path is the simplified path, or none |
| NodeTree.StatIsMeaning | libtools/oldmega.c:2517-2538 | a node is at the simplified path exactly when its names are the directory the path means; a path of slashes only finds a node with an empty name at the top and no other |
| NodeTree.UpdatePathmap | libtools/oldmega.c:1432-1492 | every node with a parent handle (for contacts the share user) points to the last node in the list with that handle, before GLib 2.40 to the first, or to none; the others keep their parent |
| NodeTree.LookupUnique | libtools/oldmega.c:1438-1450 | with distinct handles the node found is the one with the handle, with either version of GLib |
| NodeTree.LookupFinds | libtools/oldmega.c:1438-1450 | with repeated handles too, a node with the handle is found if there is one |
| NodeTree.LookupPicks | libtools/oldmega.c:1438-1450 | of several nodes with a handle the last one is found, before GLib 2.40 the first one |
| JsonLexer.RunSound | libtools/sjson.c:51-66 | whatever state the automaton is in, the text read so far is what the rules allow there |
| JsonLexer.RunDecides | libtools/sjson.c:82-152 | the automaton accepts a text exactly when some token rule matches it, and for the first such rule |
| JsonLexer.ScanLongest | libtools/sjson.c:51-152 | a scan finds the longest match of the token rules, by the first rule on ties |
| JsonLexer.LongestUnique | libtools/sjson.c:51-152 | there is only one such match |
| JsonLexer.ScanString | libtools/sjson.gen.c:330-460 | the labels inside strings, with the saved marker, find the end of the string or go back |
| JsonLexer.ScanNumber | libtools/sjson.gen.c:277-341 | the labels inside numbers find the longest number, going back over an unfinished fraction or exponent |
| JsonLexer.ScanSpace | libtools/sjson.gen.c:462-475 | the white space labels find the end of a run |
| JsonLexer.FirstLabel | libtools/sjson.gen.c:63-112 | the first dispatch goes to the label of the automaton state |
| JsonLexer.ScanRules | libtools/sjson.gen.c:57-477 | one pass of the generated code returns the longest match of the rules, by the first rule on ties, including after backtracking |
| JsonLexer.GetToken | libtools/sjson.gen.c:68-484 | skips white space and returns the next token, and terminates |
| JsonTokens.GenuineByRules | libtools/sjson.c:82-152 | a token text is accepted by the automaton exactly when it matches its rule and no earlier one |
| JsonTokens.TokenPlace | libtools/sjson.c:68-162 | before the next token there is only white space, and its text is genuine |
| JsonTokens.SpreadReads | libtools/sjson.c:68-162 | tokens written with any white space between them are read back one by one, if no two value tokens are adjacent |
| JsonTokens.ReadsSpread | libtools/sjson.c:68-162 | where tokens are read, their texts stand with white space between them |
| JsonGrammar.FlatApart | libtools/sjson.c:183-272 | in no value are two value tokens adjacent |
| JsonGrammar.ValidExactly | libtools/sjson.c:183-272 | the validator accepts exactly the texts that start with a value of the grammar, and ends just after it; leading and trailing commas are not in the grammar |
| JsonGrammar.ValueComplete | libtools/sjson.c:183-272 | every value of the grammar is accepted, with its end |
| JsonGrammar.IsValidInner | libtools/sjson.c:183-272 | the recursive loops return true exactly for the texts that start with a value, set the end, and terminate |
| JsonGrammar.IsValid | libtools/sjson.c:274-281 | true exactly for texts that are one value up to white space |
| JsonGrammar.Get | libtools/sjson.c:283-298 | a copy of the leading value without white space before it; there is a copy exactly when a value comes first, with white space in front of it left off |
| JsonStrings.GetString | libtools/sjson.c:442-509 | the decoded string: escapes, and code points as UTF-8 |
| JsonStrings.BodyReads | libtools/sjson.c:442-509 | any quoted body is read as what it stands for |
| JsonStrings.DecodeOne | libtools/sjson.c:457-500 | one element of a body: a plain character, an escaped letter, a code point |
| JsonStrings.UnescapeMeaning | libtools/sjson.c:472-489 | the codes that the eight escaped letters stand for |
| JsonStrings.CodePointWeighs | libtools/sjson.c:491-494 | four hexadecimal digits of either case weigh up to the code point |
| JsonStrings.Utf8Weighs | libtools/sjson.c:491-496 | a code point becomes the shortest UTF-8 sequence: lead and continuation bytes in their ranges, and payload bits that weigh up to it |
| JsonStrings.EuroSign | libtools/sjson.c:491-496 | an input: the escaped code point 20ac is read as the bytes E2 82 AC |
| JsonStrings.StringMatch | libtools/sjson.c:571-601 | both paths answer whether the decoded string equals the name as C strings |
| JsonStrings.FastPath | libtools/sjson.c:580-587 | comparing without decoding gives the same answer as decoding first |
| JsonStrings.EscapeString | libtools/sjson.c:720-756 | the run-by-run loop writes the quoted string, escaping a form feed only when it is alone in its run |
| JsonStrings.EscapeOne | libtools/sjson.c:720-756 | how a string of any one character is written |
| JsonStrings.FormFeedEscapes | libtools/sjson.c:720-756 | inputs: a form feed by itself is escaped, and one after another character is copied |
| JsonStrings.DecodeOfEscape | libtools/sjson.c:442-509 | decoding undoes escaping for every C string |
| JsonStrings.StringLexemeGenuine | libtools/sjson.c:720-756 | an escaped string is exactly one string token |
| JsonStrings.StringReadsBack | libtools/sjson.c:442-509 | reading the string at an escaped string gives it back |
| JsonNumbers.IntOfText | libtools/sjson.c:511-528 | reading a printed integer gives it back |
| JsonNumbers.IntOfPrefix | libtools/sjson.c:511-528 | a fraction or an exponent after the digits of an integer is not looked at |
| JsonNumbers.DecimalDigits | libtools/sjson.c:799-804 | decimal digits: the character of each, ten times the weight in front, and a minus sign |
| JsonNumbers.GetInt | libtools/sjson.c:511-528 | the integer part of a number token, or the fallback |
| JsonAccess.GetElement | libtools/sjson.c:341-357 | the element with the index, or none past the end |
| JsonAccess.GetElements | libtools/sjson.c:359-374 | all positions the iteration stops at |
| JsonAccess.ElementsExactly | libtools/sjson.c:307-374 | on a valid array the iteration stops at exactly its elements, in order |
| JsonAccess.MembersExactly | libtools/sjson.c:376-425 | on a valid object the iteration stops at exactly its members, in order |
| JsonAccess.GetMember | libtools/sjson.c:427-440 | the lookup loop computes the first match among the members |
| JsonAccess.LookupFirst | libtools/sjson.c:427-440 | on a valid object the lookup finds the value of the first member whose decoded key equals the name, and nothing if there is none |
| JsonData.ReadsBack | libtools/sjson.c:300-601 | a text that spells some data is read as that data by the getters and iterators, at every depth |
| JsonData.TextSpells | libtools/sjson.c:788-934 | the written form of some data spells it wherever it stands |
| JsonGen.SJsonGen.GenValue | libtools/sjson.c:788-827 | a string, an integer, a truth value or null with a comma after it; a missing string is null |
| JsonGen.SJsonGen.GenName | libtools/sjson.c:859-867 | the name as a string, its comma taken back, and a colon |
| JsonGen.SJsonGen.Done | libtools/sjson.c:937-950 | the text without its last comma, exactly when that is valid |
| JsonGen.RenderClose | libtools/sjson.c:679-717 | in a well-nested run a closing bracket takes back exactly the comma after the last item, if there is one |
| JsonGen.CallRenders | libtools/sjson.c:688-934 | each well-nested call turns the text of the open containers into the text of those after it |
| JsonGen.RunCalls | libtools/sjson.c:672-934 | any well-nested run of calls leaves the text of the containers it has opened |
| JsonGen.CallsAdd | libtools/sjson.c:688-934 | the matching calls for any data are well nested and add it to the open container |
| JsonGen.FinishedText | libtools/sjson.c:937-950 | after one whole value the finished text is valid, spells the value and is read as it |
| JsonGen.TextForms | libtools/sjson.c:788-934 | the text of each kind of data, containers with their parts in order and commas between them |
| JsonGen.Generate | libtools/sjson.c:672-950 | for every JSON tree the matching calls end in text that is read back as the same tree |
| JsonPretty.LayoutIsSpread | libtools/sjson.c:1093-1122 | whatever the indent, a layout is the tokens in order with only white space before each and nothing else |
| JsonPretty.Pretty | libtools/sjson.c:1062-1133 | the loop lays out the tokens of the leading value; without one there is no output |
| JsonPretty.PrettyFails | libtools/sjson.c:1062-1078 | there is no output exactly when the text does not start with a value |
| JsonPretty.PrettyKeepsMeaning | libtools/sjson.c:1062-1133 | the output has the value's token sequence, is valid, and is left as it is by printing it again |
| JsonPretty.PrettyIsTree | libtools/sjson.c:1062-1133 | for every value whose arrays start and end alike, with an object or with something else, printing token by token gives the layout defined on the tree: the depth of every line is that of the nesting |
| JsonPretty.UnevenDrifts | libtools/sjson.c:1093-1112 | an array that starts with an object and ends with something else takes one depth away for all that follows, down to none |
| JsonRuns.RunEndLongest | libtools/sjson.c:1258-1261 | the run that is copied is the longest text from there that tokens cover without gaps; for templates, tokens and white space |
| JsonCompact.Compact | libtools/sjson.c:1245-1283 | runs of tokens are copied, white space is dropped, and anything else fails |
| JsonCompact.NoRunAcross | libtools/sjson.c:1258-1266 | no run of tokens reaches across white space or the terminator that follows tokens of a value |
| JsonCompact.CompactKeepsMeaning | libtools/sjson.c:1245-1283 | a wholly valid text becomes exactly its tokens, without white space between them; the result is valid, spells the same value and is left as it is by compacting again |
| JsonCompact.NumbersInOneRun | libtools/sjson.c:1258-1261 | an input: the tokenizer reads `1.23.4` as a number and an invalid character, and compaction copies it whole |
| JsonBuild.Build | libtools/sjson.c:958-1046 | filling in copies the longest run, quotes an identifier that is longer than the run, puts in an argument for each hole, fails for anything else, and hands the text out exactly when it is valid |
| JsonBuild.HoleForms | libtools/sjson.c:1000-1040 | what each kind of hole is replaced by |
| JsonTemplate.BuildKeepsTokens | libtools/sjson.c:958-1046 | a template whose holes and bare identifiers are set off by brackets, colons and commas gives its own token sequence, each identifier as one string token and each hole as the tokens of its argument; the text is handed out exactly when those are the tokens of a value |
| JsonTemplate.SlotReadsBack | libtools/sjson.c:1001-1020 | a string or integer hole is exactly one token, read back as the argument; a missing string and a null flag give null |
| JsonTemplate.RunStopsAtName | libtools/sjson.c:986-997 | a run of tokens and white space stops in front of an identifier if and only if it does not start with true, false, null, or a minus sign and a digit |
| JsonTemplate.HolesMerge | libtools/sjson.c:1018-1020 | an input: two integer holes side by side are filled in as one number |
| JsonFields.FieldLookup | libtools/sjson.c:427-440 | a lookup in written data finds the value of the first field with the name |
| JsonFields.FieldString | libtools/sjson.c:605-615 | a member string is what the string field holds, and nothing for other fields |
| JsonFields.FieldInt | libtools/sjson.c:617-627 | a member integer is what the integer field holds, and the fallback for other fields and for none |
| JsonFields.TextIsCText | libtools/sjson.c:788-827 | the text of data made of C strings of bytes is one |
| NodeAttrs.EncodeNodeAttrs | libtools/oldmega.c:1087-1098 | the attribute text of the name |
| NodeAttrs.AttrsText | libtools/oldmega.c:1087-1098 | the text is MEGA and an object with the one member n |
| NodeAttrs.DecodeNodeAttrs | libtools/oldmega.c:1103-1119 | nothing without the prefix or for invalid JSON, otherwise what is under the name |
| NodeAttrs.EncryptThenDecrypt | libtools/oldmega.c:1087-1133 | the same through the functions that encode, encrypt, decrypt and decode, for every content of the memory |
| NodeAttrs.NodeNameRoundTrip | libtools/oldmega.c:1087-1133 | a name that is encoded, string-encrypted and decrypted with the same key comes back, for every C string and whatever stands in memory behind the text |
| CacheNodes.LoadNode | libtools/oldmega.c:3853-3882 | the member loop with its chain of comparisons sets the fields of the node |
| CacheNodes.NodeRoundTrip | libtools/oldmega.c:3717-3730 | a node that is written and loaded has all saved fields back, missing strings and keys included, for every 64-bit size |
| CacheKeys.LoadShares | libtools/oldmega.c:3838-3845 | the loop over share keys inserts each into the map |
| CacheKeys.SharesRoundTrip | libtools/oldmega.c:3664-3713 | share keys written in any order are loaded as the same map |
| CacheKeys.RsaRoundTrip | libtools/oldmega.c:199-266 | an RSA key that is written and loaded has the same parts, present or missing |
| Cache.RestoredBack | libtools/oldmega.c:3816-3845 | a cache object is restored to the session it was written for |
| Cache.CacheRoundTrip | libtools/oldmega.c:3664-3903 | loading with the same password key what was saved, with whatever stood in memory behind the text, gives the session back: scalars, share keys and the node list in order, exactly when no age is given or there is a refresh time and it plus the age is not past, and the nine essential parts are there; the session identifier is handed out in either case |
| CacheText.SessionText | libtools/oldmega.c:3686-3731 | the members of the cache text: names, order and values, with version 3 |
| CacheText.NodeText | libtools/oldmega.c:3717-3730 | the members of a node in the cache text: names, order and values |
| CacheText.ShareText | libtools/oldmega.c:3664-3670 | the members of a share key in the cache text |
| CacheText.RsaText | libtools/oldmega.c:199-222 | the parts of an RSA key that are there, in order, as decimal numbers in strings |
| SessionCache.MegaSession.Save | libtools/oldmega.c:3672-3737 | the encrypted cache text of the session, with the memory behind it |
| SessionCache.MegaSession.Load | libtools/oldmega.c:3748-3903 | the outcome, error by error: a wrong password exactly when four bytes are there and are not MEGA, a wrong version exactly when it is not 3, a time-out exactly when an age is given and there is no refresh time or it plus the age is past; what is left in the object on success and after each failure, and the session identifier that is handed out |
| SessionCache.LoadNodes | libtools/oldmega.c:3851-3886 | the list built in front and turned round is the list of nodes in order |
| SessionCache.SaveThenLoad | libtools/oldmega.c:3672-3903 | for every content of the memory behind the saved text, a second session object that loads the first one's cache has the same state, or fails, for age exactly when an age is given and the refresh time is 0 or it plus the age is past, otherwise for missing parts exactly when one of nine is missing; it hands out the session identifier in either case |

## Left out

- RsaKey.MegaRsaKey.Encrypt: needs both public numbers and, for data that are not empty, a modulus of at least eight bits; below that the unsigned message size wraps around and the allocation aborts the program.
- RsaKey.MegaRsaKey.Decrypt: needs p and q above 1; the errors of the number library for a zero modulus are not modelled.
- JsonNumbers.GetInt: reads an unbounded integer; what scanning does for numbers outside 64 bits is left open by C and not modelled.
- JsonCompact.Compact: follows the rules with the set of all states the automaton can be in; the labels of the generated automaton of this function are not modelled one by one.
- CacheKeys.LoadShares: a share key shorter than sixteen bytes, which the program copies past its end, is kept as it is.
- SessionCache.MegaSession.Load: takes the text of the file, the password key and the time as parameters; the file name and the key derivation are not modelled, nor is the update_pathmap call that ends it, which NodeTree.UpdatePathmap models by itself.
- JsonBuild.Build: an argument is a record that holds a value for any kind of hole; variable arguments whose types do not fit the template are not modelled, and the labels of the generated automaton of this function are not modelled one by one.
- `s_json_gen_json` and `s_json_gen_build`, which add a ready text to what is generated, and their member forms.
- `s_json_path`: path queries over JSON.
- Numbers printed and read as doubles; a double in a template is given by its printed text.
- Positions and lengths are unbounded; wrap-around of 64-bit counters is not modelled.
- The GLib Base64 functions are modelled from what they do: encoding with padding, decoding that skips other characters.
- RSA key generation: its result is a precondition on p, q, d, u and e.
- Sockets and TLS: a connection is a stream of response heads and body bytes that may break off anywhere, and a failed handshake is a refused connection. Parsing of header lines is one step that yields a status, a length and the connection option.
- URL parsing: a URL is a host, a port and a protocol, or unreadable.
- A MAC object that is set up again after it was finished stays finished, as in the program; nothing is claimed about its use.
- Contacts without a share user keep no parent, and removing a directory drops only the one node; both are as the program has them.
- The old duplicates of the RSA, MAC and Base64 code in libtools/oldmega.c.
- The password key and the user name hash: fixed iterations of the cipher without further properties.
- Previews, registration, the API calls, the command-line tools and the file system in user space.
- GObject boilerplate, memory management and the texts of error messages.
