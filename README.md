# Garbled gate (Yao-style), modelled in Dafny

This project models the core of a Go demonstration of one garbled two-input
Boolean gate (`main.go`):

- the gate types AND, OR and XOR;
- wires, each with two 16-byte labels `l0` (false) and `l1` (true);
- gates, each with a four-entry ciphertext table and a type;
- `enc`/`dec`, which frame an AES-GCM sealed body behind a 12-byte nonce;
- `garbleGate`, which encrypts, for each row `i`, the output label for the
  gate's truth value under the byte-wise XOR of one label of each input wire;
- `evaluateGate`, which XORs the two labels it is given into a key and returns
  the first table entry that authenticates under it.

Files:

- `auth_cipher.dfy` (module `AuthCipher`): the cipher wrapper. AES-GCM is an
  abstract `Cipher`, a pair of functions `seal` and `open`. The scheme relies on
  two properties of it, collected in the predicate `Authenticated`:
  - opening under the sealing key returns the plaintext;
  - opening under any other key fails.

  A concrete toy cipher is proved to satisfy `Authenticated`, so the two
  properties are consistent.
- `garbling.dfy` (module `Garbling`): the data types and the two operations.
  `GarbleGate` and `EvaluateGate` are methods with the source's loops; the key
  loop that both Go functions contain is the method `DeriveKey`. Each method is
  proved against a specification function: `GarbledTable`, `Evaluation` or
  `Xor`.
- `gate_properties.dfy` (module `GateProperties`): the properties of the scheme.
  The main one is the round trip. For every gate type and input bits (b1, b2),
  evaluating the garbled gate with in1's label for b1 and in2's label for b2
  returns out's label for the gate's truth value. This holds when the four row
  keys are pairwise distinct. The module also shows when that is the case,
  proves the harness's row layout agrees with the code's, and states the
  evaluator's first-match and failure behaviour.

Randomness is a parameter. `genLabel`/`newWire` are not modelled: wires are
given values. The nonce that `enc` draws is passed in, one per table row.

In `garbleGate`, in1's
label is `l1` in rows 1 and 3 (bit 0) and in2's label is `l1` in rows 2 and 3
(bit 1) (main.go:85-90). The harness reads row `i` the other way, as
in1 = `i >> 1` and in2 = `i & 1` (main.go:157-162, 198-199). The two readings
expect the same outputs only because AND, OR and XOR are symmetric;
`HarnessLayoutAgrees` proves this.

## Model

| member | source | states |
|---|---|---|
| `AuthCipher.Enc` | main.go:51-61 | the ciphertext is at least 12 bytes long and begins with the nonce, which `dec` splits back off |
| `AuthCipher.DecEnc` | main.go:45-79 | framing round trip: `dec` under the key `enc` used returns the plaintext |
| `AuthCipher.DecEncWrongKey` | main.go:64-79 | `dec` under any other key reports an authentication error |
| `AuthCipher.ToyCipherAuthenticated` | main.go:56-78 | the two properties assumed of AES-GCM's Seal/Open can hold together: a concrete cipher has both |
| `AuthCipher.Dec` | main.go:64-79 | the first 12 bytes are the nonce: for every split of the ciphertext into a 12-byte nonce and a body, the result is that body opened under the key and that nonce |
| `Garbling.RowLabels` | main.go:83-90 | row `i` uses in1's label for bit 0 of `i` and in2's label for bit 1 of `i`; otherwise the `l0` labels |
| `Garbling.OutputLabel` | main.go:92-112 | row `i` encrypts out's label for the gate's truth value on that row's bits: AND gives `l1` only in row 3, OR gives `l0` only in row 0, XOR gives `l1` in rows 1 and 2 |
| `Garbling.RowIndex` | main.go:82-90 | the row built from in1's label for b1 and in2's label for b2 is below 4, and its bit 0 is b1 and its bit 1 is b2 |
| `Garbling.Xor` | main.go:114-117 | the XOR key is as long as the first label, and each byte is the XOR of the two labels' bytes at that position |
| `Garbling.RowKey` | main.go:83-117 | row `i`'s key is an AES key length and is the byte-wise XOR of in1's label for bit 0 of `i` with in2's label for bit 1 of `i` |
| `Garbling.DeriveKey` | main.go:114-117 | the byte-by-byte loop fills an n-byte buffer with the XOR of the labels' first n bytes |
| `Garbling.GarbleGate` | main.go:81-123 | the returned gate keeps its type and has all four entries written: entry `i` is `enc` of row `i`'s output label under row `i`'s XOR key, with nonce `i` |
| `Garbling.EvalKey` | main.go:126-129 | the evaluator's key is 16 bytes, and byte `j` is `l1[j] ^ l2[j]` |
| `Garbling.FirstAuthentic` | main.go:131-137 | a plaintext the scan returns is the decryption of one of the entries |
| `Garbling.EvaluateGate` | main.go:125-138 | the result is the plaintext of the first entry, in index order 0..3, that authenticates under the XOR of the labels' first 16 bytes; if none does, the error "failed to evaluate gate" |
| `GateProperties.XorCommutes` | main.go:126-129 | swapping the two labels gives the same key |
| `GateProperties.DistinctRowKeysIff` | main.go:83-119 | the four row keys are pairwise distinct iff each wire's two labels differ and in1.l0⊕in1.l1 ≠ in2.l0⊕in2.l1; equal in1 labels make rows 0 and 1 (and 2 and 3) share a key, equal in2 labels rows 0 and 2 (and 1 and 3), equal label differences rows 0 and 3 (and 1 and 2) |
| `GateProperties.HarnessLayoutAgrees` | main.go:157-199 | reading row `i` as in1 = `i >> 1`, in2 = `i & 1` expects the same output label as the code's layout |
| `GateProperties.FirstAuthenticFound` | main.go:131-135 | a plaintext the scan returns comes from an entry that authenticates, with no authenticating entry before it |
| `GateProperties.FirstAuthenticIsFirst` | main.go:131-135 | the scan returns a plaintext p iff some entry opens to p and no earlier entry opens |
| `GateProperties.FirstAuthenticNone` | main.go:131-137 | the scan fails iff no entry authenticates |
| `GateProperties.EvalKeyIsRowKey` | main.go:114-129 | the evaluator's key for in1's label for b1 and in2's label for b2 is the key of the row built from those labels |
| `GateProperties.GarbledRowOpens` | main.go:114-119 | a garbled row opens to its output label under its own key and under no other key |
| `GateProperties.GarbleEvaluateRoundTrip` | main.go:81-138 | round trip: with pairwise-distinct row keys, evaluating with in1's label for b1 and in2's label for b2 returns out's label for truth(typ, b1, b2) |
| `GateProperties.HarnessCheckPasses` | main.go:164-195 | each of the harness's four evaluations equals its expected output label |
| `GateProperties.EvaluateSwapLabels` | main.go:125-129 | presenting the labels in either order gives the same result |
| `GateProperties.ForeignLabelsRejected` | main.go:131-137 | labels whose key matches no row key give the error, never a label |
| `GateProperties.CheckGate` | main.go:150-195 | garbling a fresh gate and evaluating the four harness inputs with the two methods returns, for each input, the expected output label |

## Left out

- `genLabel`/`newWire` (main.go:30-43) draw from `crypto/rand`: wires are parameters, and the probability that labels collide is not modelled.
- The nonces `enc` draws are parameters (one per row). Nonce freshness and ciphertext non-determinism are not stated.
- AES and GCM internals (`aes.NewCipher`, `cipher.NewGCM`, `Seal`, `Open`) are an abstract cipher.
- `AuthCipher.Authenticated`: the wrong-key property is ideal. Real AES-GCM rejects a wrong key only with overwhelming probability. Opening under the right key with a different nonce is not stated.
- Panics are requires clauses, not modelled outcomes:
  - a key whose length `aes.NewCipher` rejects (16, 24 and 32 are accepted);
  - a ciphertext shorter than 12 bytes in `dec`;
  - labels shorter than 16 bytes in `evaluateGate`;
  - an in2 label shorter than in1's in `garbleGate`.
- Panics on entropy or cipher-setup failure are left out: they are runtime conditions of the libraries.
- Security (hiding, the weakness of a key that is a plain XOR of labels) is probabilistic and not stated.
- The round trip assumes pairwise-distinct row keys. With random labels this fails only with negligible probability, which the model cannot express.
- `main` (main.go:140-207) prints; its printing and the `gateNames` map are left out. Its checking loop is `CheckGate`.
- `Garbling.EvaluateGate`: requires every table entry to be at least 12 bytes long, while Go slices only the entries the scan reaches (main.go:131-135); a table such as `[enc(k, p), nil, nil, nil]` yields `p` in Go but is outside the model. Every garbled table meets the condition.
- `Garbling.GateType` is a closed datatype of AND, OR and XOR. In Go it is an `int` (main.go:10-16): any other value falls through the switch (main.go:93-112), leaves the output label nil, so every row encrypts an empty plaintext and evaluation returns an empty label with no error. The model cannot express such a gate.
- `Garbling.EvaluateGate`: on failure Go also returns a nil label beside the error; the model's `Err` carries no label.
