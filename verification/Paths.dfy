/** The paths that provisioning writes to, and two that collide. */
module Paths {
  import opened Bytes
  import opened HashBits
  import DirTable
  import Fnv

  /** "/3f00", the master file, and "/7ff0", the USIM application. */
  const MF: bytes := [0x2f, 0x33, 0x66, 0x30, 0x30]
  const ADF: bytes := [0x2f, 0x37, 0x66, 0x66, 0x30]

  const IMSI_PATH: bytes := MF + ADF + [0x2f, 0x36, 0x66, 0x30, 0x37]
  const ICCID_PATH: bytes := MF + [0x2f, 0x32, 0x66, 0x65, 0x32]
  const A001_PATH: bytes := MF + [0x2f, 0x61, 0x30, 0x30, 0x31]
  const A004_PATH: bytes := MF + [0x2f, 0x61, 0x30, 0x30, 0x34]
  const SMSP_PATH: bytes := MF + ADF + [0x2f, 0x36, 0x66, 0x34, 0x32]

  const TARGETS: seq<bytes> := [IMSI_PATH, ICCID_PATH, A001_PATH, A004_PATH, SMSP_PATH]

  const CLASH: bytes := MF + [0x2f, 0x30]
  const CLASH_A: bytes := CLASH + [0x37, 0x61, 0x30, 0x66, 0x35]
  const CLASH_B: bytes := CLASH + [0x61, 0x65, 0x63, 0x32, 0x30]

  ghost predicate Spells(path: bytes, text: string) {
    |path| == |text| && forall i :: 0 <= i < |path| ==> path[i] == text[i] as int
  }

  lemma PathsSpelled()
    ensures Spells(IMSI_PATH, "/3f00/7ff0/6f07") && Spells(ICCID_PATH, "/3f00/2fe2")
    ensures Spells(A001_PATH, "/3f00/a001") && Spells(A004_PATH, "/3f00/a004") && Spells(SMSP_PATH, "/3f00/7ff0/6f42")
    ensures Spells(CLASH_A, "/3f00/07a0f5") && Spells(CLASH_B, "/3f00/0aec20")
  {
  }

  lemma HashOfA()
    ensures Fnv.Hash([0x61]) == 0xe40c292c
  {
    hide Fnv.Hash;
    HashNone();
    HashOne([], 0x811c9d, XC, X5, X6, X1, 8461672, 0xe40c292c);
    assert [] + [0x61] == [0x61];
  }

  lemma MfHash()
    ensures Fnv.Hash(MF) == 0xa7c929db
  {
    hide Fnv.Hash;
    HashNone();
    HashOne([], 0x811c9d, XC, X5, X2, XF, 8461673, 0x2a0c975e);
    HashOne([] + [0x2f], 0x2a0c97, X5, XE, X3, X3, 2755801, 0x9ed26097);
    HashOne([] + [0x2f] + [0x33], 0x9ed260, X9, X7, X6, X6, 10408794, 0xf62e9b63);
    HashOne([] + [0x2f] + [0x33] + [0x66], 0xf62e9b, X6, X3, X3, X0, 16134174, 0xde5e83a9);
    HashOne([] + [0x2f] + [0x33] + [0x66] + [0x30], 0xde5e83, XA, X9, X3, X0, 14573537, 0xa7c929db);
    assert [] + [0x2f] + [0x33] + [0x66] + [0x30] + [0x30] == MF;
  }

  lemma AdfHash()
    ensures Fnv.Hash(MF + ADF) == 0x1aecfa9b
  {
    hide Fnv.Hash;
    MfHash();
    HashOne(MF, 0xa7c929, XD, XB, X2, XF, 10996274, 0x15ad0b1c);
    HashOne(MF + [0x2f], 0x15ad0b, X1, XC, X3, X7, 1420589, 0x4a6894b1);
    HashOne(MF + [0x2f] + [0x37], 0x4a6894, XB, X1, X6, X6, 4876553, 0xf9a24e75);
    HashOne(MF + [0x2f] + [0x37] + [0x66], 0xf9a24e, X7, X5, X6, X6, 16360407, 0x0d80e7e9);
    HashOne(MF + [0x2f] + [0x37] + [0x66] + [0x66], 0x0d80e7, XE, X9, X3, X0, 884989, 0x1aecfa9b);
    assert MF + [0x2f] + [0x37] + [0x66] + [0x66] + [0x30] == MF + ADF;
  }

  lemma ImsiHash()
    ensures Fnv.Hash(IMSI_PATH) == 0xe27c68ed
  {
    hide Fnv.Hash;
    AdfHash();
    HashOne(MF + ADF, 0x1aecfa, X9, XB, X2, XF, 1764645, 0x170ea95c);
    HashOne(MF + ADF + [0x2f], 0x170ea9, X5, XC, X3, X6, 1511117, 0xb614b1de);
    HashOne(MF + ADF + [0x2f] + [0x36], 0xb614b1, XD, XE, X6, X6, 11933136, 0x5a93c4a8);
    HashOne(MF + ADF + [0x2f] + [0x36] + [0x66], 0x5a93c4, XA, X8, X3, X0, 5936211, 0x2e9e7b48);
    HashOne(MF + ADF + [0x2f] + [0x36] + [0x66] + [0x30], 0x2e9e7b, X4, X8, X3, X7, 3055300, 0xe27c68ed);
    assert MF + ADF + [0x2f] + [0x36] + [0x66] + [0x30] + [0x37] == IMSI_PATH;
  }

  lemma IccidHash()
    ensures Fnv.Hash(ICCID_PATH) == 0x947af9f3
  {
    hide Fnv.Hash;
    MfHash();
    HashOne(MF, 0xa7c929, XD, XB, X2, XF, 10996274, 0x15ad0b1c);
    HashOne(MF + [0x2f], 0x15ad0b, X1, XC, X3, X2, 1420589, 0x4d68996a);
    HashOne(MF + [0x2f] + [0x32], 0x4d6899, X6, XA, X6, X6, 5073170, 0xe7a8ede4);
    HashOne(MF + [0x2f] + [0x32] + [0x66], 0xe7a8ed, XE, X4, X6, X5, 15182426, 0x2fede213);
    HashOne(MF + [0x2f] + [0x32] + [0x66] + [0x65], 0x2fede2, X1, X3, X3, X2, 3141165, 0x947af9f3);
    assert MF + [0x2f] + [0x32] + [0x66] + [0x65] + [0x32] == ICCID_PATH;
  }

  lemma A001Hash()
    ensures Fnv.Hash(A001_PATH) == 0x0a367dca
  {
    hide Fnv.Hash;
    MfHash();
    HashOne(MF, 0xa7c929, XD, XB, X2, XF, 10996274, 0x15ad0b1c);
    HashOne(MF + [0x2f], 0x15ad0b, X1, XC, X6, X1, 1420589, 0x9c6915c7);
    HashOne(MF + [0x2f] + [0x61], 0x9c6915, XC, X7, X3, X0, 10250764, 0x306d93d5);
    HashOne(MF + [0x2f] + [0x61] + [0x30], 0x306d93, XD, X5, X3, X0, 3173856, 0x217fd17f);
    HashOne(MF + [0x2f] + [0x61] + [0x30] + [0x30], 0x217fd1, X7, XF, X3, X1, 2195462, 0x0a367dca);
    assert MF + [0x2f] + [0x61] + [0x30] + [0x30] + [0x31] == A001_PATH;
  }

  lemma A004Hash()
    ensures Fnv.Hash(A004_PATH) == 0x07367911
  {
    hide Fnv.Hash;
    MfHash();
    HashOne(MF, 0xa7c929, XD, XB, X2, XF, 10996274, 0x15ad0b1c);
    HashOne(MF + [0x2f], 0x15ad0b, X1, XC, X6, X1, 1420589, 0x9c6915c7);
    HashOne(MF + [0x2f] + [0x61], 0x9c6915, XC, X7, X3, X0, 10250764, 0x306d93d5);
    HashOne(MF + [0x2f] + [0x61] + [0x30], 0x306d93, XD, X5, X3, X0, 3173856, 0x217fd17f);
    HashOne(MF + [0x2f] + [0x61] + [0x30] + [0x30], 0x217fd1, X7, XF, X3, X4, 2195462, 0x07367911);
    assert MF + [0x2f] + [0x61] + [0x30] + [0x30] + [0x34] == A004_PATH;
  }

  lemma SmspHash()
    ensures Fnv.Hash(SMSP_PATH) == 0x55861852
  {
    hide Fnv.Hash;
    AdfHash();
    HashOne(MF + ADF, 0x1aecfa, X9, XB, X2, XF, 1764645, 0x170ea95c);
    HashOne(MF + ADF + [0x2f], 0x170ea9, X5, XC, X3, X6, 1511117, 0xb614b1de);
    HashOne(MF + ADF + [0x2f] + [0x36], 0xb614b1, XD, XE, X6, X6, 11933136, 0x5a93c4a8);
    HashOne(MF + ADF + [0x2f] + [0x36] + [0x66], 0x5a93c4, XA, X8, X3, X4, 5936211, 0x329e8194);
    HashOne(MF + ADF + [0x2f] + [0x36] + [0x66] + [0x34], 0x329e81, X9, X4, X3, X2, 3317457, 0x55861852);
    assert MF + ADF + [0x2f] + [0x36] + [0x66] + [0x34] + [0x32] == SMSP_PATH;
  }

  lemma ClashHash()
    ensures Fnv.Hash(CLASH) == 0x4b689644
  {
    hide Fnv.Hash;
    MfHash();
    HashOne(MF, 0xa7c929, XD, XB, X2, XF, 10996274, 0x15ad0b1c);
    HashOne(MF + [0x2f], 0x15ad0b, X1, XC, X3, X0, 1420589, 0x4b689644);
    assert MF + [0x2f] + [0x30] == CLASH;
  }

  lemma ClashAHash()
    ensures Fnv.Hash(CLASH_A) == 0x38902ebd
  {
    hide Fnv.Hash;
    ClashHash();
    HashOne(CLASH, 0x4b6896, X4, X4, X3, X7, 4942093, 0x28a4d709);
    HashOne(CLASH + [0x37], 0x28a4d7, X0, X9, X6, X1, 2663703, 0x637f18b8);
    HashOne(CLASH + [0x37] + [0x61], 0x637f18, XB, X8, X3, X0, 6520757, 0x29139e18);
    HashOne(CLASH + [0x37] + [0x61] + [0x30], 0x29139e, X1, X8, X6, X6, 2692063, 0x27e2805a);
    HashOne(CLASH + [0x37] + [0x61] + [0x30] + [0x66], 0x27e280, X5, XA, X3, X5, 2613951, 0x38902ebd);
    assert CLASH + [0x37] + [0x61] + [0x30] + [0x66] + [0x35] == CLASH_A;
  }

  lemma ClashBHash()
    ensures Fnv.Hash(CLASH_B) == 0x38902ebd
  {
    hide Fnv.Hash;
    ClashHash();
    HashOne(CLASH, 0x4b6896, X4, X4, X6, X1, 4942092, 0xdaa45c3f);
    HashOne(CLASH + [0x61], 0xdaa45c, X3, XF, X6, X5, 14329268, 0x8abd61ae);
    HashOne(CLASH + [0x61] + [0x65], 0x8abd61, XA, XE, X6, X3, 9092668, 0x3520f5b7);
    HashOne(CLASH + [0x61] + [0x65] + [0x63], 0x3520f5, XB, X7, X3, X2, 3481929, 0x27e2805f);
    HashOne(CLASH + [0x61] + [0x65] + [0x63] + [0x32], 0x27e280, X5, XF, X3, X0, 2613951, 0x38902ebd);
    assert CLASH + [0x61] + [0x65] + [0x63] + [0x32] + [0x30] == CLASH_B;
  }

  /** No two of the provisioned paths hash alike, so none of them is ever taken for another. */
  lemma TargetHashesDiffer(i: nat, j: nat)
    requires i < j < |TARGETS|
    ensures Fnv.Hash(TARGETS[i]) != Fnv.Hash(TARGETS[j])
  {
    hide Fnv.Hash;
    ImsiHash();
    IccidHash();
    A001Hash();
    A004Hash();
    SmspHash();
  }

  /** Collisions are real: these two paths have one hash, so a table that lists both is refused. */
  lemma CollidingPair(a: u16, b: u16)
    ensures Fnv.Hash(CLASH_A) == Fnv.Hash(CLASH_B) == 0x38902ebd && CLASH_A != CLASH_B
    ensures DirTable.Collide([DirTable.Record(CLASH_A, a), DirTable.Record(CLASH_B, b)])
  {
    hide Fnv.Hash;
    ClashAHash();
    ClashBHash();
    assert CLASH_A[7] != CLASH_B[7];
    var rs := [DirTable.Record(CLASH_A, a), DirTable.Record(CLASH_B, b)];
    assert Fnv.Hash(rs[0].name) == Fnv.Hash(rs[1].name);
  }

  lemma TargetsHaveNoNul(i: nat)
    requires i < |TARGETS|
    ensures 0 !in TARGETS[i]
  {
  }
}
