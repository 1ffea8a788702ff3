# Encrypted file transfer: a Dafny model of the wire protocol

The repository is a small Python client and server that move one file over TCP.
The client sends its RSA public key. The server answers with a fresh AES-256
session key wrapped with RSA-OAEP, then sends the file encrypted with an
authenticated AES mode. The client unwraps the key, reassembles the
ciphertext, decrypts it and saves the result.

There are two generations of the pair, and both are modelled:

- `src/server/ft_server.py` and `src/client/ft_client.py` send one frame
  `nonce (16) || tag (16) || be32(len(ciphertext)) || ciphertext` under
  AES-GCM. The client reads the three fixed-width fields one `recv` each, then
  reassembles the ciphertext with requests of `min(4096, remaining)` bytes.
- the top-level `ft_server.py` and `ft_client.py` are older. The server sends
  a fixed 35-byte message under AES-EAX as `nonce || ciphertext`. The client
  reads a 16-byte nonce and a 16-byte tag, then everything up to the end of the
  stream, and decrypts with AES-GCM.

Modules:

- `Bytes` (bytes.dfy) defines bytes and the four-byte big-endian length:
  `to_bytes(4, 'big')` with its overflow, `int.from_bytes`, and both round trips.
- `Transport` (transport.dfy) defines one end of a connection as a `Socket`
  class.
  - What the peer has sent and this end has not yet read is a sequence of
    non-empty segments.
  - `recv(n)` returns at most n bytes, taken from the head segment, so a
    fixed-width read can come back short. It returns no bytes only at end of
    stream.
  - Every method records its call in a ghost trace of events.
- `Crypto` (crypto.dfy) treats RSA-OAEP and AES-GCM/EAX as opaque functions.
  OAEP encryption is partial: it fails, like the ValueError of
  `PKCS1_OAEP.encrypt`, where the message is too long for the key.
  What the protocol relies on from them is stated as the predicates `RsaSound`
  and `AeadSound`, which the end-to-end lemmas take as hypotheses.
- `Server` (server.dfy) and `Client` (client.dfy) model the two `src/` scripts
  for one connection. Each step is a method on the socket. Each method is tied
  to a pure function: the frame, the trace of `handle_client`, the parse of a
  frame, or the client's outcome.
- `Transfer` (transfer.dfy) composes the `src/` server and client.
- `RootServer`, `RootClient` and `RootTransfer` (root_server.dfy,
  root_client.dfy, root_transfer.dfy) do the same for the top-level pair.

Inputs that the scripts draw from elsewhere are parameters of the model:

- the file contents, or None where `open(FILE_TO_SEND, "rb")` or `f.read()` raises;
- the 32 bytes of `os.urandom(32)`;
- the nonce the cipher object draws;
- the OAEP padding seed;
- the client's PEM file and private key.

What the code does not do:

- There is no cipher-suite negotiation.
- The public key is sent raw, without a length prefix, and read with a single
  `recv(2048)`.
- No fixed-width read loops until its count. A stream that closes early is not
  reported as a truncated frame. `Transfer.TruncatedAfterTag` and
  `Transfer.EndsInsideCiphertext` show that decryption is still attempted on
  an empty or short buffer.
- `handle_client` takes a `private_key` argument that it never uses, so the
  model leaves it out.

## Model

| member | source | states |
|---|---|---|
| Bytes.ToBigEndian4 | src/server/ft_server.py:94 | `len(ciphertext).to_bytes(4, 'big')`: it yields four bytes exactly when the length is below 2^32, and raises OverflowError (None) otherwise |
| Bytes.FromBigEndian | src/client/ft_client.py:72 | `int.from_bytes(..., 'big')` on any number of bytes, including a short read: the value is below 256^len |
| Bytes.FromBigEndianShort | src/client/ft_client.py:72 | a length field of at most four bytes (possibly a short read) decodes to a value below 2^32 |
| Bytes.DecodeEncode | src/server/ft_server.py:94 | decoding the server's four-byte encoding gives back the encoded length |
| Bytes.EncodeDecode | src/client/ft_client.py:72 | every four-byte field is the encoding of the length it decodes to, so the encoding is onto |
| Bytes.EncodingInjective | src/server/ft_server.py:94 | two encodable lengths with the same prefix are equal |
| Transport.Receive | src/client/ft_client.py:76 | `recv(n)` returns at most n bytes, what it returns plus what is left is the stream, and no bytes come back only when n is 0 or the stream has ended |
| Transport.ReceiveFull | src/client/ft_client.py:65-72 | a read that returns its full count returns exactly the next n bytes and consumes only those |
| Transport.ReceiveProgress | src/client/ft_client.py:76-78 | a read that asks for bytes gets some and shortens the stream, or it finds the end of stream, which is the loop's `if not chunk: break` |
| Transport.FullReadsStep | src/client/ft_client.py:65-72 | under the full-count assumption, each fixed-width read returns the next bytes of the stream and the following reads act on what is left |
| Transport.Socket.Recv | src/client/ft_client.py:76 | `recv(n)` on the socket: the returned bytes and the new inbound stream follow `Receive`, and the call is recorded in the trace |
| Transport.Socket.Send | src/server/ft_server.py:97 | `send`/`sendall` append all their bytes to what was written, and the call is recorded in the trace |
| Transport.Socket.Close | src/server/ft_server.py:53 | `close()` marks the connection closed and is recorded last in the trace |
| Server.Frame | src/server/ft_server.py:86-97 | the frame is nonce, then tag, then a 4-byte field decoding to `len(ciphertext)`, then the ciphertext, with total length `|nonce| + |tag| + 4 + |ciphertext|`; there is no frame when the length overflows |
| Server.HandleClientTraceCases | src/server/ft_server.py:40-53 | the exact calls of `handle_client` in each case: only the key read when the import or the OAEP encryption fails; the key read and the wrapped key alone when the file cannot be read; read, wrapped key, nonce, tag, length, ciphertext, close on success; stop after the tag when `to_bytes` raises |
| Server.HandleClientPhases | src/server/ft_server.py:44-53 | the public key is read first and nothing is read after it; nothing is written when the key cannot be imported or cannot wrap the session key; otherwise the wrapped key is the first write, before any frame byte, and the only write when the file cannot be read; close comes last, exactly when the file was read and the whole frame was sent |
| Server.HandleClientTraceWrites | src/server/ft_server.py:40-98 | the bytes written on the connection are, in order, those of the sends in the trace: the wrapped key followed by the frame, or by the nonce and tag alone when the length overflows, the key alone when the file cannot be read, and nothing when the key wrap fails |
| Server.ExchangeKeys | src/server/ft_server.py:55-69 | a key is returned exactly when OAEP encryption under the client's public key succeeds; it is 32 bytes and is the value that was wrapped, and the wrapped key is the one thing sent; where `PKCS1_OAEP.encrypt` raises, nothing is sent |
| Server.EncryptAndSendFile | src/server/ft_server.py:71-98 | the whole file goes out as one frame; nothing is sent where the file cannot be opened or read; on overflow, only the nonce and tag have been sent when `to_bytes` raises; `ok` holds exactly when the file was read and its frame fits |
| Server.HandleClient | src/server/ft_server.py:40-53 | `handle_client` succeeds exactly when the key imports, the session key can be wrapped under it, the file can be read, and the length fits; its trace and its writes are those above, it reads only the public key, and it closes the connection only on success |
| Client.ExchangeKeys | src/client/ft_client.py:47-61 | the public key is sent before anything is read; the wrapped key is read with one `recv(256)` and unwrapped, with None where OAEP decryption raises |
| Client.ParseFrame | src/client/ft_client.py:63-79 | the nonce, tag and length are read in that order, each at most 16, 16 and 4 bytes; the body never exceeds `file_size`; the fields and body are a prefix of the stream, and the whole stream when the body stops short |
| Client.ReadCiphertext | src/client/ft_client.py:74-79 | the loop's buffer is the next `min(file_size, available)` bytes of the stream, in order; every request is between 1 and 4096; the chunks concatenate to the buffer |
| Client.ReceiveEncryptedFile | src/client/ft_client.py:63-89 | what is saved is the GCM decryption of the parsed nonce, body and tag, and nothing is saved where it raises; the trace shows the three fixed-width reads, then the loop's requests; exactly the frame's fields and ciphertext are consumed from the stream, and the rest is left unread |
| Client.Run | src/client/ft_client.py:91-98 | the client's outcome is the decryption of what it parses after the wrapped key; its only write is the public key; its trace starts with that send and the `recv(256)`, stops there when unwrapping fails, and otherwise continues with the frame's reads; the stream loses only the wrapped key and the frame; the last event is `close()` exactly when both steps succeed |
| Transfer.ThreeFullReads | src/client/ft_client.py:65-72 | under full reads, the nonce, tag and length fields are stream bytes 0-16, 16-32 and 32-36 |
| Transfer.ParseFrameOfFrame | src/client/ft_client.py:63-79 | parsing a stream that starts with a frame recovers exactly its nonce, tag, length and ciphertext, and reads nothing of what follows |
| Transfer.KeyExchangeRecovers | src/client/ft_client.py:54-58 | with a matching key pair, the client's single `recv(256)` gets the whole wrapped key and unwraps the server's own session key |
| Transfer.EndToEnd | src/tests/tests_all.py:83-84 | under sound ciphers, a matching key, a file the server can read and full fixed-width reads, the file the client saves equals the file the server sent |
| Transfer.TruncatedAfterTag | src/client/ft_client.py:72-84 | when the stream ends after the tag, `file_size` is 0 and decryption is attempted on an empty ciphertext; no truncation is reported |
| Transfer.EndsInsideCiphertext | src/client/ft_client.py:75-84 | when the stream ends inside the ciphertext, the loop stops on the empty read with fewer than `file_size` bytes, and decryption is attempted on them |
| RootServer.HandleClientTraceWrites | ft_server.py:47-97 | the bytes written are, in order, those of the sends in the trace: the wrapped key, the nonce and the ciphertext |
| RootServer.HandleClientLayout | ft_server.py:86-97 | the server writes 256 + 16 + 35 bytes: the wrapped key, the nonce, and a ciphertext as long as the 35-byte message; neither the EAX tag nor a length prefix is among them |
| RootServer.EncryptAndSendFile | ft_server.py:86-97 | the nonce is sent first and the ciphertext second; the tag is computed and never sent |
| RootServer.HandleClient | ft_server.py:47-55 | the key read comes first, then the wrapped key, then the nonce and ciphertext, then close; it fails only where the key import or the OAEP encryption raises |
| RootClient.ParseStream | ft_client.py:55-68 | the nonce and the tag are at most 16 bytes each, and nonce, tag and body together are the whole stream |
| RootClient.ReadToEnd | ft_client.py:63-68 | the buffer is everything left on the stream, in order, read by `recv(4096)` calls whose chunks concatenate to it, with no upper bound; the last read is the empty one at end of stream |
| RootClient.ReceiveEncryptedFile | ft_client.py:55-73 | the result is the GCM decryption of the parsed nonce, body and tag; the trace is the nonce and tag reads, then `recv(4096)` calls ending in the empty one; the stream is consumed to its end |
| RootClient.Run | ft_client.py:77-84 | the outcome is the decryption of what follows the wrapped key; its only write is the public key; its trace starts with that send and the `recv(256)`, stops there when unwrapping fails, and otherwise continues with the nonce and tag reads and the `recv(4096)` calls up to the empty one, after which the stream is empty; the last event is `close()` exactly when both steps succeed |
| RootTransfer.LayoutMismatch | ft_client.py:57-68 | against a `nonce || ciphertext` stream, the client's tag is the first 16 ciphertext bytes and its body is the rest |
| RootTransfer.DecryptedLength | ft_client.py:55-73 | under full reads, anything the client decrypts is 32 bytes shorter than what follows the wrapped key |
| RootTransfer.NeverRecoversMessage | ft_client.py:55-75 | against the top-level server, anything the client decrypts is 19 bytes long and is never the 35-byte message |

## Left out

- Socket plumbing: `setup_server`, `connect_to_server` and the accept loop are I/O. Each connection is one `Socket` whose inbound segments are given.
- Partial `send`: `send` is modelled as writing all its bytes, like `sendall`.
- Key loading and generation: `load_private_key`, `load_public_key` and the key-generator scripts are file I/O. The PEM bytes and the private key are parameters.
- Crypto internals: pycryptodome's RSA-OAEP, AES-GCM and AES-EAX are opaque. Their padding, keystream and tag computation are not modelled. `RSA.import_key` is an opaque partial function.
- Key sizes: keys carry no modulus size. `RsaSound` promises that every key pair is 2048-bit, so the end-to-end lemmas do not cover a client key too small to wrap the 32-byte session key. The server's side of that case, the ValueError of `PKCS1_OAEP.encrypt`, is modelled as encryption returning None.
- Randomness: `os.urandom(32)`, the nonce drawn by `AES.new` and the OAEP padding are parameters.
- Server.ExchangeKeys: the length of `os.urandom(32)`'s result is a precondition on the `random` parameter rather than something the model produces.
- Transfer.EndToEnd, Transfer.ParseFrameOfFrame, Transfer.KeyExchangeRecovers, RootTransfer.NeverRecoversMessage: proved only when every fixed-width read returns its full count (`FullReads`); short reads are allowed everywhere else in the model.
- Transfer.EndToEnd, RootTransfer.NeverRecoversMessage: cipher correctness is a hypothesis (`RsaSound`, `AeadSound`), not a proof about the ciphers.
- RootTransfer.NeverRecoversMessage: the server encrypts with EAX and the client decrypts with GCM. Opaque ciphers cannot express that this mode mismatch alone makes decryption fail. The lemma rests on the byte layout alone.
- Client.Run, RootClient.Run: the output steps after decryption are assumed to succeed. Where `open(OUTPUT_FILE, "wb")` or `f.write` (src/client/ft_client.py:87-88) or `plaintext.decode()` (ft_client.py:75) raises, the real script ends before `close()`. So the rows' "close exactly when both steps succeed" covers only the key exchange and the decryption.
- Output: writing the saved file, console `print` calls (including `Decrypted message:`), and the UTF-8 `decode()` of the top-level client are left out. The decrypted bytes are the result of the model.
- The top-level client's `exchange_keys` is the same code as `src/client/ft_client.py:47-61`. The top-level server's `exchange_keys` is the same code as `src/server/ft_server.py:55-69`. Both are modelled once, by `Client.ExchangeKeys` and `Server.ExchangeKeys`.
- Test scripts: the subprocess launching, `time.sleep` and the library unit tests in both `tests_all.py` files are left out.

## Findings

| source | as written | input that shows it | evidently intended | confidence | as-written member | corrected member |
|---|---|---|---|---|---|---|
| ft_server.py:93-96 | the top-level server sends the nonce and then the ciphertext, and never sends the tag; its client (ft_client.py:57-68) reads a 16-byte nonce, then a 16-byte tag, then the rest as ciphertext, and decrypts with GCM instead of the server's EAX | any run with a key that imports and full fixed-width reads: after the 256-byte wrapped key, the stream holds 16 + 35 bytes, so the client takes ciphertext bytes 0-16 as the tag and decrypts 19 bytes, never the 35-byte message | the server sends the tag, and the client decrypts the whole ciphertext with it and recovers the message, as the `src/` pair does | not executed | RootTransfer.NeverRecoversMessage | Transfer.EndToEnd |
