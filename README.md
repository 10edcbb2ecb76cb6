# FilesystemEncryptor, modelled in Dafny

The repository has two parts, and this project models the logic of both.

**The encryptor** (C++ on Botan):
- It keeps an RSA-2048 private key in `rsa_key.pem`, generating and saving one when the file is missing.
- It lists the regular files of the working directory, which is the parent of the hard-coded path `./encrypt.exe`. It drops the program itself and eight fixed names. `rsa_key.pem` is not among those names, so the key file written just before is encrypted along with everything else.
- It encrypts each remaining file in place: AES-256/GCM under a fresh key and nonce, with the key wrapped by RSA-OAEP(SHA-256). The bundle is `base64(wrapped key) "\n" hex(nonce) "\n" base64(ciphertext)`.
- It then asks for a password it never looks at, through a PowerShell prompt that writes the answer to `ps_input.txt` in the working directory. It deletes that file and decrypts every file again.
- A separate unit reads a password from the console with `*` echo and backspace editing, then tries twelve logon-type/domain pairs against Windows.

**The graph toy**:
- A C++ `Node` keeps duplicate-free receiver lists and a `shuffleConnections` step that draws two random ids.
- Two Python transforms: `connect_neighbors` rewires every node of degree ≥ 2 to one pair of its neighbours (a degree-1 node keeps its only edge, an isolated node stays isolated), and `add_node_with_connections` attaches a fresh node to a random sample of the others.

## Layout

| file | module | what it holds |
|---|---|---|
| `base.dfy` | `Base` | `Option`, `Result`, `Outcome`; `Byte`, `WChar` |
| `primitives.dfy` | `Primitives` | Botan primitives as function-valued fields of `Crypto`; their round-trip laws (`Lawful`); class `Rng` |
| `files.dfy` | `Files` | class `FileStore`: one directory of files, some of which cannot be opened for writing |
| `rsa.dfy` | `Rsa` | bundle format, `hybridEncrypt`/`hybridDecrypt`, key file handling |
| `encrypt.dfy` | `Encrypt` | file filter, line-by-line read, per-file encrypt/decrypt, the two loops of `main` |
| `password.dfy` | `Password` | keystroke editor, logon attempt loop, `checkPassword` |
| `graphsystem.dfy` | `GraphSystem` | `combination`, class `Node`, `shuffleConnections` |
| `graph.dfy` | `GraphTransforms` | `connect_neighbors`, `add_node_with_connections` |

## How the pieces are modelled

**Cryptographic primitives.** These are opaque functions, fields of a `Crypto` value. The lemmas assume only laws about them, collected in `Lawful`:
- OAEP wrapping succeeds exactly when the message fits the OAEP capacity, and unwrapping with the matching private key inverts it.
- GCM decryption under the same 32-byte key and a non-empty nonce inverts encryption.
- Base64 and hex decoding invert encoding, and the encoders emit only the alphabets of sections 4 and 8 of RFC 4648. Base64 decoding also skips one trailing line feed; hex decoding has no such law.
- PEM decoding inverts PKCS#8 encoding.
- A generated key has a 2048-bit modulus.

**Randomness.** The generator reads an unknown byte stream. A `hybridEncrypt` call draws 32 bytes for the AES key, then 12 for the nonce, then 32 for the OAEP seed (one SHA-256 length).

**I/O passed in as inputs.** The directory listing, the file contents, the console keystrokes, the result of `GetUserNameW`, the `LogonUserW` oracle and the `rand()` values are all parameters. Which files cannot be opened for writing is part of the `FileStore` state.

**Text.** A C++ `std::string` is a sequence of bytes, and a `std::wstring` is a sequence of UTF-16 code units.

**What the code does, as opposed to what the design describes.** The model follows the code:
- It has no lock-depth counter, no escalation after a failed password, and no credential gate. The password is read and then ignored, and decryption always runs.
- Bundle fields are not counted or checked. A bundle with fewer than two line feeds parses with empty fields.
- An exception thrown by the codec is not caught, so it ends the run. The passes report it as a stop at that file.

**A consequence of the code worth knowing.** `shuffleConnections` never leaves its retry loop when a node has exactly two receivers. `combination(2, 2)` is 1, so every draw `rand() % 1` equals the first one (`ShuffleDrawsTwoIds`).

## Model

| member | source | states |
|---|---|---|
| Primitives.GeneratedKeyWrapsAesKey | Encryptor/rsa.cpp:33-36 | a 2048-bit modulus gives an OAEP(SHA-256) capacity of 190 bytes, enough for the 32-byte AES key |
| Primitives.Rng.Randomize | Encryptor/rsa.cpp:81-85 | the buffer receives the next `Length` bytes of the stream, and the generator advances by exactly that many |
| Files.FileStore.Remove | Encryptor/encrypt.cpp:78 | `std::filesystem::remove`: the file is gone afterwards and no other file changes |
| Files.FileStore.Write | Encryptor/encrypt.cpp:115-125 | the stream opens exactly when the file is writable; then the file's body is replaced, otherwise no file changes |
| Rsa.SplitAt | Encryptor/rsa.cpp:114-116 | the field `getline` returns never holds its delimiter |
| Rsa.SplitAtParts | Encryptor/rsa.cpp:114-116 | with the delimiter present, the input is field + delimiter + remainder; without it, the field is the whole input and the remainder is empty |
| Rsa.Parse | Encryptor/rsa.cpp:112-116 | the parsed key and nonce fields hold no line feed, and the ciphertext field holds no NUL |
| Rsa.ParseSerialize | Encryptor/rsa.cpp:100-103 | parsing a serialised bundle gives back its three fields whenever key and nonce hold no line feed and the ciphertext no NUL |
| Rsa.ParseShortBundle | Encryptor/rsa.cpp:114-116 | a bundle with no line feed parses as (bundle, empty, empty); one with a single line feed parses as (before, after, empty): missing fields are not rejected |
| Rsa.ParseSerializeNewline | Encryptor/rsa.cpp:114-116 | a line feed appended to a bundle ends up at the end of the ciphertext field; the other fields are unchanged |
| Rsa.RsaEncrypt | Encryptor/rsa.cpp:16-21 | draws one 32-byte OAEP seed; the result is the base64 of the OAEP encryption with that seed, or `MessageTooLong` |
| Rsa.HybridEncrypt | Encryptor/rsa.cpp:78-106 | draws key, nonce and seed (76 bytes) in that order; the bundle is built from those draws, and the same key both encrypts the payload and is wrapped; under the laws it succeeds exactly when 32 bytes fit the key's OAEP capacity |
| Rsa.RsaDecrypt | Encryptor/rsa.cpp:23-31 | `BadWrappedKeyEncoding` exactly when the field is not base64, else `KeyUnwrapFailed` exactly when OAEP rejects the decoded bytes, and otherwise exactly the key OAEP unwraps; under the laws, the base64 of an OAEP wrap of `m` for the matching public key unwraps to `m` |
| Rsa.HybridDecrypt | Encryptor/rsa.cpp:109-133 | the fields are split by position with no count check (a missing line feed leaves later fields empty); a wrapped-key failure is returned as is, then `BadNonceEncoding` exactly when the nonce is not hex, then `BadCipherEncoding` exactly when the ciphertext is not base64; once all three decode, `AuthenticationFailed` exactly when GCM rejects them under the unwrapped key and the decoded nonce, and otherwise exactly the GCM plaintext |
| Rsa.EncodedFieldsAreLineFree | Encryptor/rsa.cpp:100-103 | base64 output holds no line feed or NUL, and hex output no line feed, so the bundle's fields separate |
| Rsa.EnvelopeRoundTrip | Encryptor/rsa.cpp:78-133 | for every plaintext, including the empty one, decrypting the bundle with the matching private key gives back the plaintext, also with a trailing line feed appended |
| Rsa.GenerateKey | Encryptor/rsa.cpp:33-36 | the key is the generator's output on the upcoming stream, consuming what it used; it has 2048 bits |
| Rsa.SaveRsaKey | Encryptor/rsa.cpp:38-46 | fails with "failed to open" exactly when the file is not writable; otherwise the file holds the key's PEM and nothing else changes |
| Rsa.LoadRsaKey | Encryptor/rsa.cpp:49-58 | `KeyDecodingFailed` exactly when PKCS#8 decoding fails, `NotRsa` exactly when the key is of another algorithm, otherwise the decoded RSA key; under the PEM law, the PEM of `k` loads as `k` |
| Rsa.SaveLoadRoundTrip | Encryptor/rsa.cpp:49-58 | loading the PEM of a saved key yields that key |
| Rsa.LoadOrGenerateKey | Encryptor/rsa.cpp:61-73 | an existing key file is loaded, with nothing written or drawn; otherwise a 2048-bit key is generated, written and only then returned, or the write error is raised and no file changes |
| Encrypt.FileName | Encryptor/encrypt.cpp:25-26 | a path's file name is no longer than the path and holds no separator |
| Encrypt.FileNameSuffix | Encryptor/encrypt.cpp:41 | the file name is a suffix of the path, preceded by a separator when shorter than the path |
| Encrypt.FileNameAfterSeparator | Encryptor/encrypt.cpp:41 | a directory ending in a separator followed by a separator-free name has that name as its file name |
| Encrypt.SelfFileName | Encryptor/encrypt.cpp:170 | the program's own path `./encrypt.exe` has file name `encrypt.exe` |
| Encrypt.ListRegularFiles | Encryptor/encrypt.cpp:29-36 | collects exactly the regular entries of the listing, in listing order |
| Encrypt.NeighboursMembership | Encryptor/encrypt.cpp:41 | a name survives the filter exactly when it was listed, is not the program's file name and is not excluded |
| Encrypt.NeighboursAppend | Encryptor/encrypt.cpp:39-49 | filtering a concatenation is the concatenation of the filtered parts, so relative order is kept and nothing is skipped |
| Encrypt.FindNeighboringFiles | Encryptor/encrypt.cpp:22-52 | the erase-while-iterating loop leaves exactly the order-preserving filter of the regular files; a file is kept exactly when it is neither the program nor excluded |
| Encrypt.NormaliseIdempotent | Encryptor/encrypt.cpp:107-111 | the read loop's text ends in a line feed unless empty, extends the content by at most one byte, and a second pass changes nothing |
| Encrypt.ReadText | Encryptor/encrypt.cpp:103-111 | the `getline` loop yields the content unchanged when it is empty or ends in a line feed, else the content plus a line feed |
| Encrypt.SealedOpens | Encryptor/encrypt.cpp:134-140 | a bundle written by `encryptFileContent`, re-read line by line (so with one extra line feed), decrypts to the text that was encrypted |
| Encrypt.EncryptFileContent | Encryptor/encrypt.cpp:101-126 | the file's normalised text is encrypted; the body becomes the bundle, or an unopenable stream only reports and nothing is written; a codec error stops with the file unchanged; no other file changes |
| Encrypt.DecryptFileContent | Encryptor/encrypt.cpp:128-153 | the same for decryption of the normalised bundle, with its errors |
| Encrypt.CapacityWrapsAesKeys | Encryptor/rsa.cpp:97 | when 32 bytes fit the key's OAEP capacity, no wrap of an AES key fails |
| Encrypt.EncryptPass | Encryptor/encrypt.cpp:171-174 | the calls, recorded as they are made, are one `encryptFileContent` per file of the processed prefix in list order, and each draws one envelope's 76 bytes; a stop names the file that threw, and that file is left untouched too unless an earlier call in the pass named it; files not reached are untouched; with a large enough key nothing stops; with distinct writable files every file holds a bundle that opens to its original normalised text |
| Encrypt.DecryptPass | Encryptor/encrypt.cpp:177-180 | the calls, recorded as they are made, are one `decryptFileContent` per file of the processed prefix in list order; the file that stops the pass is left as it was unless an earlier call named it; with distinct names it completes exactly when every file decrypts; with writable files too, each holds its decryption |
| Encrypt.AskAndDecrypt | Encryptor/encrypt.cpp:58-79 | the password prompt removes `ps_input.txt`; then the decrypt pass runs on the remaining directory; nothing outside the listed files and `ps_input.txt` changes, and `ps_input.txt` stays gone when it is not listed; completion and restored contents are as for the decrypt pass, relative to the directory before the prompt, when `ps_input.txt` is not listed |
| Encrypt.ProcessFiles | Encryptor/encrypt.cpp:171-180 | the call log joins the two passes' recorded calls. If neither pass stops, it is one encryption of every file, then one decryption of every file in the same order. An encrypt stop logs the encryptions of a non-empty prefix ending at the stopping file. A decrypt stop logs every encryption, then the decryptions of a non-empty prefix ending at the stopping file. Every logged call names a listed file. A completed encrypt pass drew 76 bytes per file. No file outside the list changes except `ps_input.txt`, which is removed once encryption completes, and nothing at all outside the list on an encrypt stop. Under the laws, with a fitting key, distinct writable files and `ps_input.txt` not listed, every file ends with its original normalised text |
| Encrypt.Run | Encryptor/encrypt.cpp:155-182 | `main`: a key error touches nothing. Otherwise every logged call names a listed file, so neither the program nor an excluded name is ever processed. A completed run encrypts, then decrypts, every listed file exactly once whatever the password. A stopped run logs the calls up to the stopping file, as for `ProcessFiles`. `ps_input.txt` is the only unlisted file that can change after the key phase. Files end with their original normalised text when the conditions hold and `ps_input.txt` is not listed |
| Password.TypeStep | Encryptor/password.cpp:15-32 | one more key changes the password and the echo as that key's handling says |
| Password.HandleKey | Encryptor/password.cpp:22-31 | backspace removes the last character when there is one and echoes `"\b \b"`, and does nothing on an empty buffer; any other key is appended and echoes `*` |
| Password.GetPasswordSecurely | Encryptor/password.cpp:9-35 | reading stops at the first CR or LF, which is not stored; the password is the edit of the keys before it, and the echo is their echo plus a newline |
| Password.EditHoldsNoControlKeys | Encryptor/password.cpp:15-32 | the password never holds a backspace or a terminator and is no longer than the keys typed |
| Password.EditWithoutBackspace | Encryptor/password.cpp:28-30 | without backspaces, the password is exactly the keys typed |
| Password.EchoShowsStars | Encryptor/password.cpp:25-30 | the console line shows exactly one `*` per character of the password |
| Password.LogonCode | Encryptor/password.cpp:45-50 | the `dwLogonType` passed to `LogonUserW`: interactive is 2, and network, batch and service follow as 3, 4, 5 in the order the loop tries them, so distinct types get distinct codes |
| Password.AttemptAt | Encryptor/password.cpp:60-61 | attempt number t·3 + d is logon type t with domain d: types outer, domains inner |
| Password.AttemptsCoverAllPairs | Encryptor/password.cpp:45-61 | every logon-type/domain pair is attempted |
| Password.VerifyWindowsCredentials | Encryptor/password.cpp:37-85 | succeeds exactly when some pair is accepted; the pairs tried are a prefix of the twelve, the last one is the first to be accepted, and a failure tries all twelve |
| Password.CurrentUsername | Encryptor/password.cpp:87-96 | the name is the buffer up to its first NUL, or empty when `GetUserNameW` fails |
| Password.WidenAll | Encryptor/password.cpp:99 | widening keeps the length and widens each byte |
| Password.WidenRoundTrip | Encryptor/password.cpp:99 | each wide character gives its byte back, so distinct passwords stay distinct |
| Password.CheckPassword | Encryptor/password.cpp:98-106 | returns 1 exactly when some logon pair accepts the user and the widened password, else 0 |
| GraphSystem.BinomialStep | Graphs/graphsystem.cpp:12-16 | C(n, i)·(n − i) = C(n, i + 1)·(i + 1), the step that makes each division exact |
| GraphSystem.BinomialSymmetry | Graphs/graphsystem.cpp:9-10 | C(n, k) = C(n, n − k) |
| GraphSystem.BinomialPairs | Graphs/graphsystem.cpp:59 | C(m, 2)·2 = m(m − 1) |
| GraphSystem.Combination | Graphs/graphsystem.cpp:7-18 | for 0 ≤ k ≤ n the result is the binomial coefficient C(n, k) (each step keeps result = C(n, i + 1) and divides exactly); otherwise the loop does not run and the result is 1 |
| GraphSystem.Find | Graphs/graphsystem.cpp:31 | `std::find` with the id-only `operator==`: the first position holding that id, or the length when none does |
| GraphSystem.FindAbsent | Graphs/graphsystem.cpp:38-46 | `find` reports absence exactly when no receiver has the id |
| GraphSystem.AddReceiverProperties | Graphs/graphsystem.cpp:36-40 | adding keeps ids unique, makes the id present, grows the list by at most one and leaves earlier receivers in place |
| GraphSystem.AddReceiverIdempotent | Graphs/graphsystem.cpp:36-40 | adding the same node twice changes nothing the second time |
| GraphSystem.Node.constructor | Graphs/graphsystem.cpp:26 | a node with the given id and no receivers |
| GraphSystem.Node.Default | Graphs/graphsystem.cpp:27 | the default node has id −1 and no receivers |
| GraphSystem.Node.AddSingleConnection | Graphs/graphsystem.cpp:36-40 | pushes a copy of the connection unless its id is already present |
| GraphSystem.Node.AddDualConnection | Graphs/graphsystem.cpp:29-34 | this node adds the connection, then the connection adds a copy of this node as it is after that push, also when both are the same node |
| GraphSystem.DualConnectionLinksBoth | Graphs/graphsystem.cpp:29-34 | after `addDualConnection` each of two nodes lists the other's id, and each list grew by at most one |
| GraphSystem.FirstDifferent | Graphs/graphsystem.cpp:63-66 | the retry loop stops at the first draw whose residue differs from `a`'s, and at no earlier draw |
| GraphSystem.OneResidueNeverExits | Graphs/graphsystem.cpp:63-66 | modulo 1 no draw differs, so the retry loop never exits |
| GraphSystem.PairCount | Graphs/graphsystem.cpp:59 | for m ≥ 2 receivers the draw range is m(m − 1)/2, which is 1 exactly when m = 2 |
| GraphSystem.ShuffleDrawsTwoIds | Graphs/graphsystem.cpp:59-66 | a finished shuffle drew two distinct ids below the pair count and needs at least three receivers; with exactly two receivers the loop never ends |
| GraphSystem.Node.ShuffleConnections | Graphs/graphsystem.cpp:48-79 | 0 or 1 receivers are left untouched; otherwise the draws go as `ShuffleResult` says and `receivers` ends empty; `a` and `b` are fresh locals, so no other node changes |
| GraphTransforms.AddEdge | Graphs/graph.py:30 | `add_edge` adds both endpoints and both directions, keeping the graph undirected |
| GraphTransforms.ConnectNode | Graphs/graph.py:24-38 | for one node: no edge for no neighbours, the edge to the only neighbour, or two distinct sampled neighbours joined to the node and to each other |
| GraphTransforms.ConnectNeighbors | Graphs/graph.py:12-40 | `H` is undirected on exactly the nodes of `G` and holds exactly the union of what each node's step adds, with a valid sample for every node of degree ≥ 2; a node is isolated in `H` exactly when it is isolated in `G` |
| GraphTransforms.RewiredEdges | Graphs/graph.py:20-38 | `H` is undirected on exactly `G`'s nodes, and every `H` edge is a `G` edge or joins two distinct neighbours of one node |
| GraphTransforms.RewiredKeepsIsolated | Graphs/graph.py:25-26 | a node isolated in `G` gets no edges in `H` |
| GraphTransforms.RewiredKeepsOnlyNeighbour | Graphs/graph.py:28-30 | a node with one neighbour keeps that edge |
| GraphTransforms.RewiredJoinsPair | Graphs/graph.py:31-38 | a node with two or more neighbours is adjacent to two distinct `G` neighbours, which are adjacent to each other |
| GraphTransforms.RewiredNoneIsolated | Graphs/graph.py:15 | no node that had a neighbour in `G` is isolated in `H` |
| GraphTransforms.MaxNode | Graphs/graph.py:54 | `max(H.nodes)` is a node no other node exceeds |
| GraphTransforms.NewNodeId | Graphs/graph.py:51-54 | the new id is 0 for an empty graph, else max + 1, and is not yet a node |
| GraphTransforms.NextIdFresh | Graphs/graph.py:51-54 | the id rule gives a fresh id and determines it uniquely |
| GraphTransforms.SampleExists | Graphs/graph.py:59-60 | a sample of k distinct nodes exists whenever k is at most the population |
| GraphTransforms.ConnectTo | Graphs/graph.py:65-66 | the loop adds exactly the edges between the new node and the targets |
| GraphTransforms.AttachedNeighbors | Graphs/graph.py:56-66 | joining a node outside `G` to the targets makes the targets exactly its neighbours and keeps the graph undirected |
| GraphTransforms.AddNodeWithConnections | Graphs/graph.py:43-68 | a negative count raises exactly as `random.sample` does; otherwise `G` is kept whole, the new node is fresh (0 or max + 1), and it gets exactly min(count, \|V(G)\|) distinct neighbours, all from `G` |

## Left out

- Botan's algorithms: RSA-OAEP with SHA-256 (section 7.1 of RFC 8017), AES-256/GCM (NIST SP 800-38D), base64 and hex (sections 4 and 8 of RFC 4648), PKCS#8 PEM (section 10 of RFC 7468) and RSA key generation. They are opaque functions with round-trip laws only.
- Primitives.Lawful: the base64 law only says that trailing line feeds are ignored (any number of them, applying the law once per line feed), which is what the decrypt path needs. Botan's decoder ignores all whitespace, wherever it occurs.
- RNG quality and the generator's internals. Only the order and number of bytes drawn by key generation and `hybridEncrypt` are modelled.
- Rsa.RsaEncrypt: counts the 32 seed bytes as drawn even when the message is over capacity, although Botan checks the length before it draws. The exception then ends the run, so no later draw is affected.
- The random bytes `rsaDecrypt` lets Botan draw for RSA blinding are not modelled. Nothing draws after the decrypt pass, so no modelled draw depends on them.
- The directory listing is an input independent of the `FileStore`. So the model does not show that `rsa_key.pem`, written in the key phase, appears in the listing and is then encrypted and decrypted like any other file.
- `Encryptor/datascrape.cpp`, `playTetris`, `scrape` and `performativePowershell`. These are Win32 queries and shell calls, and their results are never used by the logic modelled. `Encryptor/rsa.h` holds declarations only.
- Encrypt.AskAndDecrypt: of `getUserInputViaPowerShell`, only the removal of `ps_input.txt` is modelled. The removal always succeeds. The PowerShell window, the write of the typed line and the read back are not modelled, because the file is deleted right after and the password is never used.
- Encrypt.ProcessFiles and Encrypt.Run: when `ps_input.txt` is itself listed, the model promises no restoration. After the prompt removes it, its decryption reads an empty bundle, and what the crypto laws say about that bundle is left open.
- Console output: prompts, the printing of user name and password, and the success and failure messages. Only the edit echo is modelled.
- `LogonUserW` and `GetUserNameW`. They are an oracle and an input buffer.
- `fs::directory_iterator`, file open and truncate semantics, and Windows text-mode CRLF translation. The listing and the file bodies are inputs, and all files sit in one directory.
- Password.GetPasswordSecurely: requires that a terminator occurs in the key sequence. The real loop blocks in `_getwch` until one arrives.
- Encrypt.EncryptFileContent: a file missing from the store reads as empty, as an `ifstream` that fails to open yields no lines. A file that exists but cannot be opened for reading is not modelled.
- GraphSystem.Combination: does not model 32-bit `int` overflow of `result *= (n - i)`. Integers here are unbounded.
- GraphSystem.Node.ShuffleConnections: `rand()` is a finite sequence of values. When it runs out before a second id appears, the outcome is `RollsExhausted`. The real loop keeps drawing, and never stops for two receivers.
- `periodic`, its thread and `sleep_until`, and `main`'s `malloc`/placement-new node setup in `Graphs/graphsystem.cpp`.
- `create_random_2_regular` (networkx generator), `pyvis_from_nx`, `write_multi_graph_html`, and the `os`/`webbrowser` calls of `main` in `Graphs/graph.py`. The unused parameter `n` of `connect_neighbors` is dropped.
- GraphTransforms.ConnectNeighbors: visits nodes in an arbitrary order rather than networkx insertion order. The result depends only on the samples, not on the order.
- GraphTransforms.AddNodeWithConnections: the Python default `num_connections=3` is not modelled; every caller passes the count.
- GraphTransforms.AddNodeWithConnections: node ids are integers. Python would accept any orderable hashable ids.
