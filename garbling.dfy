/** One garbled two-input Boolean gate: the gate types, wires and gates, the
    garbler (`garbleGate`) and the evaluator (`evaluateGate`).

    Row `i` of a garbled table encrypts an output label under the byte-wise XOR of
    one label of each input wire. As the code lays the table out, in1's bit is
    bit 0 of `i` and in2's bit is bit 1 of `i`. The table is not permuted. */
module Garbling {

  import opened AuthCipher

  /** Length in bytes of a label, and of the key the evaluator derives. */
  const LabelLength: nat := 16

  datatype GateType = AND | OR | XOR

  type Label = Bytes

  /** A wire's two labels: `l0` stands for false, `l1` for true. */
  datatype Wire = Wire(l0: Label, l1: Label) {
    function LabelFor(b: bool): Label {
      if b then l1 else l0
    }
  }

  /** The four ciphertexts of a gate (a fixed-size array of byte slices). */
  type Table = t: seq<Bytes> | |t| == 4 witness [[], [], [], []]

  datatype Gate = Gate(table: Table, typ: GateType)

  /** What a freshly declared gate holds: four empty entries. */
  function NewGate(typ: GateType): Gate {
    Gate([[], [], [], []], typ)
  }

  datatype Result<T> = Ok(value: T) | Err(msg: string)

  /** The error `evaluateGate` reports when no entry authenticates. */
  const EvaluationFailed: string := "failed to evaluate gate"

  /** The Boolean function a gate type stands for. */
  function Truth(typ: GateType, a: bool, b: bool): bool {
    match typ
    case AND => a && b
    case OR => a || b
    case XOR => a != b
  }

  /** The input labels garbleGate picks for row `i`: in1's label for bit 0 of `i`
      and in2's label for bit 1 of `i`. */
  function RowLabels(in1: Wire, in2: Wire, i: nat): (r: (Label, Label))
    requires i < 4
    ensures r.0 == in1.LabelFor(i % 2 == 1)
    ensures r.1 == in2.LabelFor(i / 2 == 1)
  {
    var a := if i == 1 || i == 3 then in1.l1 else in1.l0;
    var b := if i == 2 || i == 3 then in2.l1 else in2.l0;
    (a, b)
  }

  /** The output label garbleGate encrypts in row `i`: the one for the gate's
      truth value on that row's input bits. */
  function OutputLabel(typ: GateType, out: Wire, i: nat): (r: Label)
    requires i < 4
    ensures r == out.LabelFor(Truth(typ, i % 2 == 1, i / 2 == 1))
  {
    match typ
    case AND => if i == 3 then out.l1 else out.l0
    case OR => if i == 0 then out.l0 else out.l1
    case XOR => if i == 1 || i == 2 then out.l1 else out.l0
  }

  /** The row that garbleGate builds from in1's label for `b1` and in2's label for `b2`. */
  function RowIndex(b1: bool, b2: bool): (i: nat)
    ensures i < 4
    ensures (i % 2 == 1) == b1 && (i / 2 == 1) == b2
  {
    (if b1 then 1 else 0) + (if b2 then 2 else 0)
  }

  /** Byte-wise exclusive or, as long as `a`; `b` may be longer. */
  function Xor(a: Bytes, b: Bytes): (r: Bytes)
    requires |a| <= |b|
    ensures |r| == |a|
    ensures forall j :: 0 <= j < |a| ==> r[j] == a[j] ^ b[j]
  {
    if |a| == 0 then [] else [a[0] ^ b[0]] + Xor(a[1..], b[1..])
  }

  /** The key loop of both garbleGate and evaluateGate: a fresh `n`-byte buffer
      whose byte `j` becomes `a[j] ^ b[j]`. */
  method DeriveKey(a: Bytes, b: Bytes, n: nat) returns (key: Bytes)
    requires n <= |a| && n <= |b|
    ensures key == Xor(a[..n], b)
  {
    var buf := new Byte[n];
    var j := 0;
    while j < n
      invariant 0 <= j <= n
      invariant forall m :: 0 <= m < j ==> buf[m] == a[m] ^ b[m]
    {
      buf[j] := a[j] ^ b[j];
      j := j + 1;
    }
    key := buf[..];
  }

  /** What garbleGate demands of its input wires: in1's labels are AES key
      lengths (each row key is as long as in1's label) and in2's labels are at
      least as long as in1's (they are indexed over in1's length). */
  predicate Garbleable(in1: Wire, in2: Wire) {
    && AesKeySize(|in1.l0|) && AesKeySize(|in1.l1|)
    && |in1.l0| <= |in2.l0| && |in1.l0| <= |in2.l1|
    && |in1.l1| <= |in2.l0| && |in1.l1| <= |in2.l1|
  }

  /** One random 12-byte nonce per row: the randomness `enc` draws. */
  predicate NoncesOk(nonces: seq<Bytes>) {
    |nonces| == 4 && forall n | n in nonces :: |n| == NonceSize
  }

  /** The key of row `i`: the XOR of the row's two input labels. */
  function RowKey(in1: Wire, in2: Wire, i: nat): (k: Bytes)
    requires Garbleable(in1, in2) && i < 4
    ensures AesKeySize(|k|)
    ensures k == Xor(in1.LabelFor(i % 2 == 1), in2.LabelFor(i / 2 == 1))
  {
    var (a, b) := RowLabels(in1, in2, i);
    Xor(a, b)
  }

  /** Row `i` of the garbled table. */
  function GarbledRow(c: Cipher, typ: GateType, in1: Wire, in2: Wire, out: Wire, nonce: Bytes, i: nat): Bytes
    requires Garbleable(in1, in2) && i < 4 && |nonce| == NonceSize
  {
    Enc(c, RowKey(in1, in2, i), nonce, OutputLabel(typ, out, i))
  }

  /** The whole garbled table, row `i` encrypted with `nonces[i]`. */
  function GarbledTable(c: Cipher, typ: GateType, in1: Wire, in2: Wire, out: Wire, nonces: seq<Bytes>): Table
    requires Garbleable(in1, in2) && NoncesOk(nonces)
  {
    seq(4, r requires 0 <= r < 4 => GarbledRow(c, typ, in1, in2, out, nonces[r], r))
  }

  /** garbleGate: fills all four rows of a copy of `gate`, keeping its type. */
  method GarbleGate(c: Cipher, gate: Gate, in1: Wire, in2: Wire, out: Wire, nonces: seq<Bytes>)
    returns (g: Gate)
    requires Garbleable(in1, in2) && NoncesOk(nonces)
    ensures g.typ == gate.typ
    ensures g.table == GarbledTable(c, gate.typ, in1, in2, out, nonces)
  {
    var table := gate.table;
    var i := 0;
    while i < 4
      invariant 0 <= i <= 4
      invariant forall r :: 0 <= r < i ==> table[r] == GarbledRow(c, gate.typ, in1, in2, out, nonces[r], r)
    {
      var (in1Label, in2Label) := RowLabels(in1, in2, i);
      var outLabel := OutputLabel(gate.typ, out, i);

      var key := DeriveKey(in1Label, in2Label, |in1Label|);
      assert in1Label[..|in1Label|] == in1Label;

      table := table[i := Enc(c, key, nonces[i], outLabel)];
      i := i + 1;
    }
    g := gate.(table := table);
  }

  /** The key evaluateGate derives: the XOR of the first 16 bytes of each label. */
  function EvalKey(l1: Label, l2: Label): (k: Bytes)
    requires |l1| >= LabelLength && |l2| >= LabelLength
    ensures AesKeySize(|k|) && |k| == LabelLength
    ensures forall j :: 0 <= j < LabelLength ==> k[j] == l1[j] ^ l2[j]
  {
    Xor(l1[..LabelLength], l2)
  }

  /** Every entry is long enough for `dec` to split off its nonce. */
  predicate Decryptable(entries: seq<Bytes>) {
    forall e | e in entries :: |e| >= NonceSize
  }

  /** The plaintext of the first entry that authenticates under `key`, if any. */
  function FirstAuthentic(c: Cipher, key: Bytes, entries: seq<Bytes>): (r: Option<Bytes>)
    requires AesKeySize(|key|) && Decryptable(entries)
    ensures r.Some? ==> exists i :: 0 <= i < |entries| && Dec(c, key, entries[i]) == r
  {
    if entries == [] then None
    else match Dec(c, key, entries[0])
      case Some(p) => Some(p)
      case None =>
        var rest := FirstAuthentic(c, key, entries[1..]);
        assert rest.Some? ==> exists i :: 0 < i < |entries| && Dec(c, key, entries[i]) == rest by {
          if rest.Some? {
            var i :| 0 <= i < |entries| - 1 && Dec(c, key, entries[1..][i]) == rest;
            assert entries[1..][i] == entries[i + 1];
          }
        }
        rest
  }

  /** What evaluating `gate` with labels `l1` and `l2` yields. */
  function Evaluation(c: Cipher, gate: Gate, l1: Label, l2: Label): Result<Label>
    requires |l1| >= LabelLength && |l2| >= LabelLength && Decryptable(gate.table)
  {
    match FirstAuthentic(c, EvalKey(l1, l2), gate.table)
    case Some(p) => Ok(p)
    case None => Err(EvaluationFailed)
  }

  /** evaluateGate: derives the key, then trial-decrypts the entries in index
      order and returns the first plaintext that authenticates. */
  method EvaluateGate(c: Cipher, gate: Gate, l1: Label, l2: Label) returns (r: Result<Label>)
    requires |l1| >= LabelLength && |l2| >= LabelLength && Decryptable(gate.table)
    ensures r == Evaluation(c, gate, l1, l2)
  {
    var key := DeriveKey(l1, l2, LabelLength);

    var k := 0;
    while k < 4
      invariant 0 <= k <= 4
      invariant FirstAuthentic(c, key, gate.table) == FirstAuthentic(c, key, gate.table[k..])
    {
      var entry := gate.table[k];
      assert gate.table[k..][1..] == gate.table[k + 1..];
      var result := Dec(c, key, entry);
      if result.Some? {
        return Ok(result.value);
      }
      k := k + 1;
    }
    return Err(EvaluationFailed);
  }
}
