/** What garbling and evaluation promise together: evaluating a garbled gate with
    one label per input wire yields the output label for the gate's truth value,
    provided the four row keys are pairwise distinct. */
module GateProperties {

  import opened AuthCipher
  import opened Garbling

  /** Labels of the length the evaluator reads. */
  predicate WellFormed(w: Wire) {
    |w.l0| == LabelLength && |w.l1| == LabelLength
  }

  /** No two rows of the table share a key. */
  predicate DistinctRowKeys(in1: Wire, in2: Wire)
    requires Garbleable(in1, in2)
  {
    forall i, j :: 0 <= i < j < 4 ==> RowKey(in1, in2, i) != RowKey(in1, in2, j)
  }

  lemma XorCommutes(a: Bytes, b: Bytes)
    requires |a| == |b|
    ensures Xor(a, b) == Xor(b, a)
  {
    forall j | 0 <= j < |a| ensures Xor(a, b)[j] == Xor(b, a)[j] {
      assert a[j] ^ b[j] == b[j] ^ a[j];
    }
  }

  /** XOR with a common right operand is injective. */
  lemma XorCancelRight(a: Bytes, b: Bytes, c: Bytes)
    requires |a| == |b| == |c|
    ensures Xor(a, c) == Xor(b, c) <==> a == b
  {
    if Xor(a, c) == Xor(b, c) {
      forall j | 0 <= j < |a| ensures a[j] == b[j] {
        assert Xor(a, c)[j] == Xor(b, c)[j];
        assert a[j] == (a[j] ^ c[j]) ^ c[j];
        assert b[j] == (b[j] ^ c[j]) ^ c[j];
      }
    }
  }

  /** XOR with a common left operand is injective. */
  lemma XorCancelLeft(c: Bytes, a: Bytes, b: Bytes)
    requires |a| == |b| == |c|
    ensures Xor(c, a) == Xor(c, b) <==> a == b
  {
    XorCommutes(c, a);
    XorCommutes(c, b);
    XorCancelRight(a, b, c);
  }

  /** a0^b0 == a1^b1 exactly when a0^a1 == b0^b1. */
  lemma XorRearrange(a0: Bytes, b0: Bytes, a1: Bytes, b1: Bytes)
    requires |a0| == |b0| == |a1| == |b1|
    ensures Xor(a0, b0) == Xor(a1, b1) <==> Xor(a0, a1) == Xor(b0, b1)
  {
    if Xor(a0, b0) == Xor(a1, b1) {
      forall j | 0 <= j < |a0| ensures Xor(a0, a1)[j] == Xor(b0, b1)[j] {
        assert Xor(a0, b0)[j] == Xor(a1, b1)[j];
        assert a0[j] ^ a1[j] == b0[j] ^ b1[j];
      }
    }
    if Xor(a0, a1) == Xor(b0, b1) {
      forall j | 0 <= j < |a0| ensures Xor(a0, b0)[j] == Xor(a1, b1)[j] {
        assert Xor(a0, a1)[j] == Xor(b0, b1)[j];
        assert a0[j] ^ b0[j] == a1[j] ^ b1[j];
      }
    }
  }

  /** DistinctRowKeys spelled out as the six pairs of rows. */
  lemma DistinctRowKeysPairs(in1: Wire, in2: Wire)
    requires Garbleable(in1, in2)
    ensures DistinctRowKeys(in1, in2) <==>
      var k0, k1, k2, k3 := RowKey(in1, in2, 0), RowKey(in1, in2, 1), RowKey(in1, in2, 2), RowKey(in1, in2, 3);
      k0 != k1 && k0 != k2 && k0 != k3 && k1 != k2 && k1 != k3 && k2 != k3
  {
  }

  /** The four row keys are pairwise distinct exactly when each wire's two labels
      differ and the two wires' label differences differ. Equal in1 labels make
      rows 0 and 1 (and 2 and 3) share a key, equal in2 labels rows 0 and 2 (and
      1 and 3), and equal label differences rows 0 and 3 (and 1 and 2). */
  lemma DistinctRowKeysIff(in1: Wire, in2: Wire)
    requires WellFormed(in1) && WellFormed(in2)
    ensures Garbleable(in1, in2)
    ensures DistinctRowKeys(in1, in2) <==>
      in1.l0 != in1.l1 && in2.l0 != in2.l1 && Xor(in1.l0, in1.l1) != Xor(in2.l0, in2.l1)
  {
    var a0, a1, b0, b1 := in1.l0, in1.l1, in2.l0, in2.l1;
    var k0, k1, k2, k3 := Xor(a0, b0), Xor(a1, b0), Xor(a0, b1), Xor(a1, b1);
    assert RowKey(in1, in2, 0) == k0 && RowKey(in1, in2, 1) == k1;
    assert RowKey(in1, in2, 2) == k2 && RowKey(in1, in2, 3) == k3;
    DistinctRowKeysPairs(in1, in2);
    var wiresDiffer := Xor(a0, a1) != Xor(b0, b1);
    XorCancelRight(a0, a1, b0);
    assert (k0 == k1) == (a0 == a1);
    XorCancelRight(a0, a1, b1);
    assert (k2 == k3) == (a0 == a1);
    XorCancelLeft(a0, b0, b1);
    assert (k0 == k2) == (b0 == b1);
    XorCancelLeft(a1, b0, b1);
    assert (k1 == k3) == (b0 == b1);
    XorRearrange(a0, b0, a1, b1);
    assert (k0 == k3) == !wiresDiffer;
    XorRearrange(a1, b0, a0, b1);
    XorCommutes(a1, a0);
    assert (k1 == k2) == !wiresDiffer;
  }

  /** The code's layout and the harness's layout (in1 = i >> 1, in2 = i & 1)
      expect the same output on every row, because AND, OR and XOR are symmetric. */
  lemma HarnessLayoutAgrees(typ: GateType, out: Wire, i: nat)
    requires i < 4
    ensures OutputLabel(typ, out, i) == out.LabelFor(Truth(typ, i / 2 == 1, i % 2 == 1))
  {
    assert Truth(typ, i % 2 == 1, i / 2 == 1) == Truth(typ, i / 2 == 1, i % 2 == 1);
  }

  /** If entry `i` authenticates and no entry before it does, the scan returns entry `i`'s plaintext. */
  lemma {:induction false} FirstAuthenticAt(c: Cipher, key: Bytes, entries: seq<Bytes>, i: nat)
    requires AesKeySize(|key|) && Decryptable(entries) && i < |entries|
    requires forall j :: 0 <= j < i ==> Dec(c, key, entries[j]) == None
    requires Dec(c, key, entries[i]).Some?
    ensures FirstAuthentic(c, key, entries) == Dec(c, key, entries[i])
  {
    if i > 0 {
      assert Dec(c, key, entries[0]) == None;
      assert entries[1..][i - 1] == entries[i];
      assert forall j :: 0 <= j < i - 1 ==> entries[1..][j] == entries[j + 1];
      FirstAuthenticAt(c, key, entries[1..], i - 1);
    }
  }

  /** Entry `i` opens to `p` and no entry before it opens. */
  predicate FirstOpening(c: Cipher, key: Bytes, entries: seq<Bytes>, i: nat, p: Bytes)
    requires AesKeySize(|key|) && Decryptable(entries)
  {
    && i < |entries| && Dec(c, key, entries[i]) == Some(p)
    && forall j :: 0 <= j < i ==> Dec(c, key, entries[j]) == None
  }

  /** If the head does not open, the first opening entry of the tail is the
      first opening entry of the whole sequence, one index later. */
  lemma FirstAfterHead(c: Cipher, key: Bytes, entries: seq<Bytes>, i: nat, p: Bytes)
    requires AesKeySize(|key|) && Decryptable(entries) && 0 < |entries|
    requires Dec(c, key, entries[0]) == None
    requires FirstOpening(c, key, entries[1..], i, p)
    ensures FirstOpening(c, key, entries, i + 1, p)
  {
    assert entries[i + 1] == entries[1..][i];
    forall j | 0 < j < i + 1 ensures Dec(c, key, entries[j]) == None {
      assert entries[j] == entries[1..][j - 1];
    }
  }

  /** A plaintext the scan returns comes from an entry that authenticates and has
      no authenticating entry before it. */
  lemma {:induction false} FirstAuthenticFound(c: Cipher, key: Bytes, entries: seq<Bytes>, p: Bytes)
    requires AesKeySize(|key|) && Decryptable(entries)
    requires FirstAuthentic(c, key, entries) == Some(p)
    ensures exists i :: FirstOpening(c, key, entries, i, p)
  {
    if Dec(c, key, entries[0]) == None {
      assert FirstAuthentic(c, key, entries[1..]) == Some(p);
      FirstAuthenticFound(c, key, entries[1..], p);
      var i :| FirstOpening(c, key, entries[1..], i, p);
      FirstAfterHead(c, key, entries, i, p);
    } else {
      assert FirstOpening(c, key, entries, 0, p);
    }
  }

  /** The scan returns the first entry, in index order, that authenticates. */
  lemma FirstAuthenticIsFirst(c: Cipher, key: Bytes, entries: seq<Bytes>, p: Bytes)
    requires AesKeySize(|key|) && Decryptable(entries)
    ensures FirstAuthentic(c, key, entries) == Some(p) <==>
      exists i :: FirstOpening(c, key, entries, i, p)
  {
    if FirstAuthentic(c, key, entries) == Some(p) {
      FirstAuthenticFound(c, key, entries, p);
    }
    if exists i :: FirstOpening(c, key, entries, i, p) {
      var i :| FirstOpening(c, key, entries, i, p);
      FirstAuthenticAt(c, key, entries, i);
    }
  }

  /** The scan fails exactly when no entry authenticates. */
  lemma {:induction false} FirstAuthenticNone(c: Cipher, key: Bytes, entries: seq<Bytes>)
    requires AesKeySize(|key|) && Decryptable(entries)
    ensures FirstAuthentic(c, key, entries) == None <==>
      forall i :: 0 <= i < |entries| ==> Dec(c, key, entries[i]) == None
  {
    if entries != [] {
      FirstAuthenticNone(c, key, entries[1..]);
      assert forall i :: 1 <= i < |entries| ==> entries[i] == entries[1..][i - 1];
    }
  }

  /** The evaluator's key for in1's label for b1 and in2's label for b2 is the
      key of the row garbleGate built from those two labels. */
  lemma EvalKeyIsRowKey(in1: Wire, in2: Wire, b1: bool, b2: bool)
    requires WellFormed(in1) && WellFormed(in2)
    ensures Garbleable(in1, in2)
    ensures EvalKey(in1.LabelFor(b1), in2.LabelFor(b2)) == RowKey(in1, in2, RowIndex(b1, b2))
  {
    var l1, l2 := in1.LabelFor(b1), in2.LabelFor(b2);
    assert l1[..LabelLength] == l1;
    assert RowLabels(in1, in2, RowIndex(b1, b2)) == (l1, l2);
  }

  /** Row `i` of a garbled table opens under row `i`'s key, to the row's output
      label, and under no other key. */
  lemma GarbledRowOpens(c: Cipher, typ: GateType, in1: Wire, in2: Wire, out: Wire,
                        nonces: seq<Bytes>, i: nat, key: Bytes)
    requires Authenticated(c)
    requires Garbleable(in1, in2) && NoncesOk(nonces) && i < 4 && AesKeySize(|key|)
    ensures var table := GarbledTable(c, typ, in1, in2, out, nonces);
      && |table[i]| >= NonceSize
      && Dec(c, key, table[i]) == if key == RowKey(in1, in2, i) then Some(OutputLabel(typ, out, i)) else None
  {
    var table := GarbledTable(c, typ, in1, in2, out, nonces);
    assert table[i] == GarbledRow(c, typ, in1, in2, out, nonces[i], i);
    if key == RowKey(in1, in2, i) {
      DecEnc(c, key, nonces[i], OutputLabel(typ, out, i));
    } else {
      DecEncWrongKey(c, RowKey(in1, in2, i), key, nonces[i], OutputLabel(typ, out, i));
    }
  }

  /** Every entry of a garbled table is long enough for `dec`. */
  lemma GarbledTableDecryptable(c: Cipher, typ: GateType, in1: Wire, in2: Wire, out: Wire,
                                nonces: seq<Bytes>)
    requires Garbleable(in1, in2) && NoncesOk(nonces)
    ensures Decryptable(GarbledTable(c, typ, in1, in2, out, nonces))
  {
    var table := GarbledTable(c, typ, in1, in2, out, nonces);
    forall i | 0 <= i < 4 ensures |table[i]| >= NonceSize {
      assert table[i] == GarbledRow(c, typ, in1, in2, out, nonces[i], i);
    }
  }

  /** With distinct row keys, the rows before row `r` do not open under row `r`'s key. */
  lemma EarlierRowsFail(c: Cipher, typ: GateType, in1: Wire, in2: Wire, out: Wire,
                        nonces: seq<Bytes>, r: nat)
    requires Authenticated(c)
    requires Garbleable(in1, in2) && NoncesOk(nonces) && DistinctRowKeys(in1, in2) && r < 4
    ensures var table := GarbledTable(c, typ, in1, in2, out, nonces);
      forall j :: 0 <= j < r ==> |table[j]| >= NonceSize && Dec(c, RowKey(in1, in2, r), table[j]) == None
  {
    var key := RowKey(in1, in2, r);
    forall j | 0 <= j < r
      ensures var table := GarbledTable(c, typ, in1, in2, out, nonces);
        |table[j]| >= NonceSize && Dec(c, key, table[j]) == None
    {
      GarbledRowOpens(c, typ, in1, in2, out, nonces, j, key);
      assert RowKey(in1, in2, j) != key;
    }
  }

  /** Round trip: for every gate type and input bits (b1, b2), evaluating the
      garbled gate with in1's label for b1 and in2's label for b2 returns out's
      label for the gate's truth value on (b1, b2). */
  lemma GarbleEvaluateRoundTrip(c: Cipher, typ: GateType, in1: Wire, in2: Wire, out: Wire,
                                nonces: seq<Bytes>, b1: bool, b2: bool)
    requires Authenticated(c)
    requires WellFormed(in1) && WellFormed(in2) && NoncesOk(nonces)
    requires Garbleable(in1, in2) && DistinctRowKeys(in1, in2)
    ensures var gate := Gate(GarbledTable(c, typ, in1, in2, out, nonces), typ);
      && Decryptable(gate.table)
      && Evaluation(c, gate, in1.LabelFor(b1), in2.LabelFor(b2)) == Ok(out.LabelFor(Truth(typ, b1, b2)))
  {
    var table := GarbledTable(c, typ, in1, in2, out, nonces);
    var row := RowIndex(b1, b2);
    var key := EvalKey(in1.LabelFor(b1), in2.LabelFor(b2));
    EvalKeyIsRowKey(in1, in2, b1, b2);
    GarbledTableDecryptable(c, typ, in1, in2, out, nonces);
    EarlierRowsFail(c, typ, in1, in2, out, nonces, row);
    GarbledRowOpens(c, typ, in1, in2, out, nonces, row, key);
    FirstAuthenticAt(c, key, table, row);
  }

  /** The harness's check (one evaluation per input combination, compared with its
      own expected output) succeeds on every row it enumerates. */
  lemma HarnessCheckPasses(c: Cipher, typ: GateType, in1: Wire, in2: Wire, out: Wire,
                           nonces: seq<Bytes>, i: nat)
    requires Authenticated(c)
    requires WellFormed(in1) && WellFormed(in2) && NoncesOk(nonces)
    requires Garbleable(in1, in2) && DistinctRowKeys(in1, in2)
    requires i < 4
    ensures var gate := Gate(GarbledTable(c, typ, in1, in2, out, nonces), typ);
      && Decryptable(gate.table)
      && Evaluation(c, gate, in1.LabelFor(i / 2 == 1), in2.LabelFor(i % 2 == 1)) == Ok(OutputLabel(typ, out, i))
  {
    GarbleEvaluateRoundTrip(c, typ, in1, in2, out, nonces, i / 2 == 1, i % 2 == 1);
    HarnessLayoutAgrees(typ, out, i);
  }

  /** Swapping the two presented labels changes nothing: the derived key is the same. */
  lemma EvaluateSwapLabels(c: Cipher, gate: Gate, l1: Label, l2: Label)
    requires |l1| >= LabelLength && |l2| >= LabelLength && Decryptable(gate.table)
    ensures Evaluation(c, gate, l1, l2) == Evaluation(c, gate, l2, l1)
  {
    assert Xor(l1[..LabelLength], l2) == Xor(l1[..LabelLength], l2[..LabelLength]);
    assert Xor(l2[..LabelLength], l1) == Xor(l2[..LabelLength], l1[..LabelLength]);
    XorCommutes(l1[..LabelLength], l2[..LabelLength]);
  }

  /** Labels whose derived key matches no row key are rejected with an error,
      never answered with a wrong label. */
  lemma ForeignLabelsRejected(c: Cipher, typ: GateType, in1: Wire, in2: Wire, out: Wire,
                              nonces: seq<Bytes>, l1: Label, l2: Label)
    requires Authenticated(c)
    requires Garbleable(in1, in2) && NoncesOk(nonces)
    requires |l1| >= LabelLength && |l2| >= LabelLength
    requires forall i :: 0 <= i < 4 ==> EvalKey(l1, l2) != RowKey(in1, in2, i)
    ensures var gate := Gate(GarbledTable(c, typ, in1, in2, out, nonces), typ);
      && Decryptable(gate.table)
      && Evaluation(c, gate, l1, l2) == Err(EvaluationFailed)
  {
    var table := GarbledTable(c, typ, in1, in2, out, nonces);
    var key := EvalKey(l1, l2);
    forall i | 0 <= i < 4 ensures Dec(c, key, table[i]) == None {
      DecEncWrongKey(c, RowKey(in1, in2, i), key, nonces[i], OutputLabel(typ, out, i));
    }
    FirstAuthenticNone(c, key, table);
  }

  /** The harness's loop for one gate type: garble a fresh gate, evaluate it on
      the four input pairs (in1 = i >> 1, in2 = i & 1), and compare each result
      with the expected output label. Every evaluation succeeds and matches. */
  method CheckGate(c: Cipher, typ: GateType, in1: Wire, in2: Wire, out: Wire, nonces: seq<Bytes>)
    returns (results: seq<Result<Label>>)
    requires Authenticated(c)
    requires WellFormed(in1) && WellFormed(in2) && NoncesOk(nonces)
    requires Garbleable(in1, in2) && DistinctRowKeys(in1, in2)
    ensures |results| == 4
    ensures forall i :: 0 <= i < 4 ==> results[i] == Ok(OutputLabel(typ, out, i))
  {
    var gate := GarbleGate(c, NewGate(typ), in1, in2, out, nonces);
    GarbledTableDecryptable(c, typ, in1, in2, out, nonces);
    results := [];
    var i := 0;
    while i < 4
      invariant 0 <= i <= 4 && |results| == i
      invariant forall k :: 0 <= k < i ==> results[k] == Ok(OutputLabel(typ, out, k))
    {
      var r := EvaluateGate(c, gate, in1.LabelFor(i / 2 == 1), in2.LabelFor(i % 2 == 1));
      HarnessCheckPasses(c, typ, in1, in2, out, nonces, i);
      results := results + [r];
      i := i + 1;
    }
  }
}
