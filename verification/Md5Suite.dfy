/** The digest of the alphabet, which the test suite of RFC 1321 (section A.5) gives, followed through the
    64 steps of its only block. */
module Md5Suite {
  import opened Bits
  import opened Bytes
  import opened Md5Spec

  // ---------------------------------------------------------------- one step

  /** The auxiliary function of step i. */
  function Mixed(i: nat, x: bv32, y: bv32, z: bv32): bv32 {
    if i < 16 then (x & y) | (!x & z) else if i < 32 then (x & z) | (y & !z) else if i < 48 then x ^ y ^ z
    else y ^ (x | !z)
  }

  /** The number that a word of the machine stands for. */
  function Number(b: bv32): nat {
    b as nat
  }

  lemma WordBack(w: word, b: bv32)
    requires w == Number(b)
    ensures w as bv32 == b
  {
  }

  lemma FIs(u: word, v: word, w: word, x: bv32, y: bv32, z: bv32)
    requires u as bv32 == x && v as bv32 == y && w as bv32 == z
    ensures F(u, v, w) == ((x & y) | (!x & z)) as word && G(u, v, w) == ((x & z) | (y & !z)) as word
  {
  }

  lemma HIs(u: word, v: word, w: word, x: bv32, y: bv32, z: bv32)
    requires u as bv32 == x && v as bv32 == y && w as bv32 == z
    ensures H(u, v, w) == (x ^ y ^ z) as word && I(u, v, w) == (y ^ (x | !z)) as word
  {
  }

  lemma MixIs(i: nat, u: word, v: word, w: word, x: bv32, y: bv32, z: bv32)
    requires u as bv32 == x && v as bv32 == y && w as bv32 == z
    ensures Mix(i, u, v, w) == Number(Mixed(i, x, y, z))
  {
    if i < 32 {
      FIs(u, v, w, x, y, z);
    } else {
      HIs(u, v, w, x, y, z);
    }
  }

  lemma RotatedIs(w: word, x: bv32, s: nat)
    requires w as bv32 == x && 0 < s < 32
    ensures RotateLeft(w, s) == Number(Rotated(x, s))
  {
  }

  /** Step i makes e of the registers a to d, by way of the sum that is rotated. */
  predicate Makes(num: bv32 -> nat, block: seq<word>, i: nat, a: bv32, b: bv32, c: bv32, d: bv32, sum: bv32, e: bv32)
    requires |block| == 16
  {
    && i < 64
    && num(sum) == (num(a) + num(Mixed(i, b, c, d)) + block[Index(i)] + Sine(i)) % 0x1_0000_0000
    && num(e) == (num(b) + num(Rotated(sum, Shift(i)))) % 0x1_0000_0000
  }

  ghost predicate Follows(num: bv32 -> nat, at: (nat, bv32, bv32, bv32, bv32) -> bool, block: seq<word>)
    requires |block| == 16
  {
    forall i: nat, a: bv32, b: bv32, c: bv32, d: bv32, sum: bv32, e: bv32 ::
      at(i, a, b, c, d) && Makes(num, block, i, a, b, c, d, sum, e) ==> at(i + 1, d, e, b, c)
  }

  /** These are the registers of the standard after i steps. */
  ghost predicate RegistersAre(block: seq<word>, i: nat, a: bv32, b: bv32, c: bv32, d: bv32)
    requires |block| == 16
  {
    Registers(INIT, block, i) == (Number(a), Number(b), Number(c), Number(d))
  }

  lemma NextIs(block: seq<word>, i: nat, r: (word, word, word, word),
               a: bv32, b: bv32, c: bv32, d: bv32, sum: bv32, e: bv32)
    requires |block| == 16 && r == (Number(a), Number(b), Number(c), Number(d))
    requires Makes(Number, block, i, a, b, c, d, sum, e)
    ensures Next(block, i, r) == Number(e)
  {
    WordBack(r.1, b);
    WordBack(r.2, c);
    WordBack(r.3, d);
    MixIs(i, r.1, r.2, r.3, b, c, d);
    var s := Word(r.0 + Mix(i, r.1, r.2, r.3) + block[Index(i)] + Sine(i));
    WordBack(s, sum);
    RotatedIs(s, sum, Shift(i));
  }

  lemma RegistersStep(block: seq<word>, i: nat, a: bv32, b: bv32, c: bv32, d: bv32, sum: bv32, e: bv32)
    requires |block| == 16 && RegistersAre(block, i, a, b, c, d) && Makes(Number, block, i, a, b, c, d, sum, e)
    ensures RegistersAre(block, i + 1, d, e, b, c)
  {
    var r := Registers(INIT, block, i);
    NextIs(block, i, r, a, b, c, d, sum, e);
    assert Registers(INIT, block, i + 1) == (r.3, Next(block, i, r), r.1, r.2);
  }

  /** The registers of the standard follow the steps. */
  lemma StandardFollows(at: (nat, bv32, bv32, bv32, bv32) -> bool, block: seq<word>)
    requires |block| == 16
    requires forall i: nat, a: bv32, b: bv32, c: bv32, d: bv32 ::
               at(i, a, b, c, d) <==> RegistersAre(block, i, a, b, c, d)
    ensures Follows(Number, at, block)
  {
    forall i: nat, a: bv32, b: bv32, c: bv32, d: bv32, sum: bv32, e: bv32
      | at(i, a, b, c, d) && Makes(Number, block, i, a, b, c, d, sum, e)
      ensures at(i + 1, d, e, b, c)
    {
      RegistersStep(block, i, a, b, c, d, sum, e);
    }
  }

  ghost predicate Numbers(num: bv32 -> nat) {
    forall b: bv32 :: num(b) == b as nat
  }

  lemma Step(num: bv32 -> nat, at: (nat, bv32, bv32, bv32, bv32) -> bool, block: seq<word>,
             i: nat, a: bv32, b: bv32, c: bv32, d: bv32, f: bv32, sum: bv32, turned: bv32, e: bv32,
             na: nat, nb: nat, nf: nat, ns: nat, nt: nat, ne: nat, t: nat, input: nat)
    requires |block| == 16 && i < 64 && Follows(num, at, block) && at(i, a, b, c, d)
    requires Mixed(i, b, c, d) == f && Rotated(sum, Shift(i)) == turned && Sine(i) == t && block[Index(i)] == input
    requires num(a) == na && num(b) == nb && num(f) == nf && num(sum) == ns && num(turned) == nt && num(e) == ne
    requires ns == (na + nf + input + t) % 0x1_0000_0000 && ne == (nb + nt) % 0x1_0000_0000
    ensures at(i + 1, d, e, b, c)
  {
    assert Makes(num, block, i, a, b, c, d, sum, e);
  }

  // ---------------------------------------------------------------- the steps of the alphabet

  /** The words of the padded alphabet. */
  predicate IsAlphabet(block: seq<word>) {
    && |block| == 16
    && block[0] == 0x64636261 && block[1] == 0x68676665 && block[2] == 0x6C6B6A69 && block[3] == 0x706F6E6D
    && block[4] == 0x74737271 && block[5] == 0x78777675 && block[6] == 0x00807A79 && block[7] == 0x0
    && block[8] == 0x0 && block[9] == 0x0 && block[10] == 0x0 && block[11] == 0x0
    && block[12] == 0x0 && block[13] == 0x0 && block[14] == 0xD0 && block[15] == 0x0
  }

  lemma Steps0(num: bv32 -> nat, at: (nat, bv32, bv32, bv32, bv32) -> bool, block: seq<word>)
    requires Numbers(num) && IsAlphabet(block) && Follows(num, at, block)
    requires at(0, 0x67452301, 0xEFCDAB89, 0x98BADCFE, 0x10325476)
    ensures at(4, 0xD6D117A6, 0x4503B812, 0x227D8CF1, 0xAAB1AAAA)
  {
    assert Sine(0) == 0xD76AA478 && Index(0) == 0 && Shift(0) == 7;
    Step(num, at, block, 0, 0x67452301, 0xEFCDAB89, 0x98BADCFE, 0x10325476, 0x98BADCFE, 0x3BCE06D8, 0xE7036C1D,
         0xD6D117A6, 0x67452301, 0xEFCDAB89, 0x98BADCFE, 0x3BCE06D8, 0xE7036C1D, 0xD6D117A6, 0xD76AA478, 0x64636261);
    assert Sine(1) == 0xE8C7B756 && Index(1) == 1 && Shift(1) == 12;
    Step(num, at, block, 1, 0x10325476, 0xD6D117A6, 0xEFCDAB89, 0x98BADCFE, 0xCEEBCBD8, 0x304D3E09, 0xD3E09304,
         0xAAB1AAAA, 0x10325476, 0xD6D117A6, 0xCEEBCBD8, 0x304D3E09, 0xD3E09304, 0xAAB1AAAA, 0xE8C7B756, 0x68676665);
    assert Sine(2) == 0x242070DB && Index(2) == 2 && Shift(2) == 17;
    Step(num, at, block, 2, 0x98BADCFE, 0xAAB1AAAA, 0xD6D117A6, 0xEFCDAB89, 0xC7DD03A3, 0xF123BBE5, 0x77CBE247,
         0x227D8CF1, 0x98BADCFE, 0xAAB1AAAA, 0xC7DD03A3, 0xF123BBE5, 0x77CBE247, 0x227D8CF1, 0x242070DB, 0x6C6B6A69);
    assert Sine(3) == 0xC1BDCEEE && Index(3) == 3 && Shift(3) == 22;
    Step(num, at, block, 3, 0xEFCDAB89, 0x227D8CF1, 0xAAB1AAAA, 0xD6D117A6, 0xF6B19BA6, 0x18AC848A, 0x22862B21,
         0x4503B812, 0xEFCDAB89, 0x227D8CF1, 0xF6B19BA6, 0x18AC848A, 0x22862B21, 0x4503B812, 0xC1BDCEEE, 0x706F6E6D);
  }

  lemma Steps4(num: bv32 -> nat, at: (nat, bv32, bv32, bv32, bv32) -> bool, block: seq<word>)
    requires Numbers(num) && IsAlphabet(block) && Follows(num, at, block)
    requires at(4, 0xD6D117A6, 0x4503B812, 0x227D8CF1, 0xAAB1AAAA)
    ensures at(8, 0xFE15F787, 0xDA9BBB0D, 0xB71122FC, 0xA811B278)
  {
    assert Sine(4) == 0xF57C0FAF && Index(4) == 4 && Shift(4) == 7;
    Step(num, at, block, 4, 0xD6D117A6, 0x4503B812, 0x227D8CF1, 0xAAB1AAAA, 0xAAB18AB8, 0xEB72247E, 0xB9123F75,
         0xFE15F787, 0xD6D117A6, 0x4503B812, 0xAAB18AB8, 0xEB72247E, 0xB9123F75, 0xFE15F787, 0xF57C0FAF, 0x74737271);
    assert Sine(5) == 0x4787C62A && Index(5) == 5 && Shift(5) == 12;
    Step(num, at, block, 5, 0xAAB1AAAA, 0xFE15F787, 0x4503B812, 0x227D8CF1, 0x4469B872, 0xAF1A9FBB, 0xA9FBBAF1,
         0xA811B278, 0xAAB1AAAA, 0xFE15F787, 0x4469B872, 0xAF1A9FBB, 0xA9FBBAF1, 0xA811B278, 0x4787C62A, 0x78777675);
    assert Sine(6) == 0xA8304613 && Index(6) == 6 && Shift(6) == 17;
    Step(num, at, block, 6, 0x227D8CF1, 0xA811B278, 0xFE15F787, 0x4503B812, 0xED13BA02, 0xB842077F, 0x0EFF7084,
         0xB71122FC, 0x227D8CF1, 0xA811B278, 0xED13BA02, 0xB842077F, 0x0EFF7084, 0xB71122FC, 0xA8304613, 0x00807A79);
    assert Sine(7) == 0xFD469501 && Index(7) == 7 && Shift(7) == 22;
    Step(num, at, block, 7, 0x4503B812, 0xB71122FC, 0xA811B278, 0xFE15F787, 0xE815F77B, 0x2A60448E, 0x238A9811,
         0xDA9BBB0D, 0x4503B812, 0xB71122FC, 0xE815F77B, 0x2A60448E, 0x238A9811, 0xDA9BBB0D, 0xFD469501, 0x0);
  }

  lemma Steps8(num: bv32 -> nat, at: (nat, bv32, bv32, bv32, bv32) -> bool, block: seq<word>)
    requires Numbers(num) && IsAlphabet(block) && Follows(num, at, block)
    requires at(8, 0xFE15F787, 0xDA9BBB0D, 0xB71122FC, 0xA811B278)
    ensures at(12, 0xAE752899, 0x56CFA5CB, 0x7D4BD80B, 0x2BBE757F)
  {
    assert Sine(8) == 0x698098D8 && Index(8) == 8 && Shift(8) == 7;
    Step(num, at, block, 8, 0xFE15F787, 0xDA9BBB0D, 0xB71122FC, 0xA811B278, 0xB211227C, 0x19A7B2DB, 0xD3D96D8C,
         0xAE752899, 0xFE15F787, 0xDA9BBB0D, 0xB211227C, 0x19A7B2DB, 0xD3D96D8C, 0xAE752899, 0x698098D8, 0x0);
    assert Sine(9) == 0x8B44F7AF && Index(9) == 9 && Shift(9) == 12;
    Step(num, at, block, 9, 0xA811B278, 0xAE752899, 0xDA9BBB0D, 0xB71122FC, 0x9B112A6D, 0xCE67D494, 0x7D494CE6,
         0x2BBE757F, 0xA811B278, 0xAE752899, 0x9B112A6D, 0xCE67D494, 0x7D494CE6, 0x2BBE757F, 0x8B44F7AF, 0x0);
    assert Sine(10) == 0xFFFF5BB1 && Index(10) == 10 && Shift(10) == 17;
    Step(num, at, block, 10, 0xB71122FC, 0x2BBE757F, 0xAE752899, 0xDA9BBB0D, 0xFA35AA19, 0xB14628C6, 0x518D628C,
         0x7D4BD80B, 0xB71122FC, 0x2BBE757F, 0xFA35AA19, 0xB14628C6, 0x518D628C, 0x7D4BD80B, 0xFFFF5BB1, 0x0);
    assert Sine(11) == 0x895CD7BE && Index(11) == 11 && Shift(11) == 22;
    Step(num, at, block, 11, 0xDA9BBB0D, 0x7D4BD80B, 0x2BBE757F, 0xAE752899, 0xAB3E709B, 0x0F370366, 0xD983CDC0,
         0x56CFA5CB, 0xDA9BBB0D, 0x7D4BD80B, 0xAB3E709B, 0x0F370366, 0xD983CDC0, 0x56CFA5CB, 0x895CD7BE, 0x0);
  }

  lemma Steps12(num: bv32 -> nat, at: (nat, bv32, bv32, bv32, bv32) -> bool, block: seq<word>)
    requires Numbers(num) && IsAlphabet(block) && Follows(num, at, block)
    requires at(12, 0xAE752899, 0x56CFA5CB, 0x7D4BD80B, 0x2BBE757F)
    ensures at(16, 0x1754A316, 0x608D6B7E, 0x00DF74D5, 0x85567D90)
  {
    assert Sine(12) == 0x6B901122 && Index(12) == 12 && Shift(12) == 7;
    Step(num, at, block, 12, 0xAE752899, 0x56CFA5CB, 0x7D4BD80B, 0x2BBE757F, 0x7D7BD03F, 0x978109FA, 0xC084FD4B,
         0x1754A316, 0xAE752899, 0x56CFA5CB, 0x7D7BD03F, 0x978109FA, 0xC084FD4B, 0x1754A316, 0x6B901122, 0x0);
    assert Sine(13) == 0xFD987193 && Index(13) == 13 && Shift(13) == 12;
    Step(num, at, block, 13, 0x2BBE757F, 0x1754A316, 0x56CFA5CB, 0x7D4BD80B, 0x7E4FF90B, 0xA7A6E01D, 0x6E01DA7A,
         0x85567D90, 0x2BBE757F, 0x1754A316, 0x7E4FF90B, 0xA7A6E01D, 0x6E01DA7A, 0x85567D90, 0xFD987193, 0x0);
    assert Sine(14) == 0xA679438E && Index(14) == 14 && Shift(14) == 17;
    Step(num, at, block, 14, 0x7D4BD80B, 0x85567D90, 0x1754A316, 0x56CFA5CB, 0x57DDA15B, 0x7BA2BDC4, 0x7B88F745,
         0x00DF74D5, 0x7D4BD80B, 0x85567D90, 0x57DDA15B, 0x7BA2BDC4, 0x7B88F745, 0x00DF74D5, 0xA679438E, 0xD0);
    assert Sine(15) == 0x49B40821 && Index(15) == 15 && Shift(15) == 22;
    Step(num, at, block, 15, 0x56CFA5CB, 0x00DF74D5, 0x85567D90, 0x1754A316, 0x1756F792, 0xB7DAA57E, 0x5FADF6A9,
         0x608D6B7E, 0x56CFA5CB, 0x00DF74D5, 0x1756F792, 0xB7DAA57E, 0x5FADF6A9, 0x608D6B7E, 0x49B40821, 0x0);
  }

  lemma Steps16(num: bv32 -> nat, at: (nat, bv32, bv32, bv32, bv32) -> bool, block: seq<word>)
    requires Numbers(num) && IsAlphabet(block) && Follows(num, at, block)
    requires at(16, 0x1754A316, 0x608D6B7E, 0x00DF74D5, 0x85567D90)
    ensures at(20, 0x2D8071CC, 0x4C2145B3, 0xEDFE7E4B, 0x5DCEE119)
  {
    assert Sine(16) == 0xF61E2562 && Index(16) == 1 && Shift(16) == 5;
    Step(num, at, block, 16, 0x1754A316, 0x608D6B7E, 0x00DF74D5, 0x85567D90, 0x008D6955, 0x76679832, 0xCCF3064E,
         0x2D8071CC, 0x1754A316, 0x608D6B7E, 0x008D6955, 0x76679832, 0xCCF3064E, 0x2D8071CC, 0xF61E2562, 0x68676665);
    assert Sine(17) == 0xC040B340 && Index(17) == 6 && Shift(17) == 9;
    Step(num, at, block, 17, 0x85567D90, 0x2D8071CC, 0x608D6B7E, 0x00DF74D5, 0x60807BEE, 0xA6982737, 0x304E6F4D,
         0x5DCEE119, 0x85567D90, 0x2D8071CC, 0x60807BEE, 0xA6982737, 0x304E6F4D, 0x5DCEE119, 0xC040B340, 0x00807A79);
    assert Sine(18) == 0x265E5A51 && Index(18) == 11 && Shift(18) == 14;
    Step(num, at, block, 18, 0x00DF74D5, 0x5DCEE119, 0x2D8071CC, 0x608D6B7E, 0x4D8C7198, 0x74CA40BE, 0x902F9D32,
         0xEDFE7E4B, 0x00DF74D5, 0x5DCEE119, 0x4D8C7198, 0x74CA40BE, 0x902F9D32, 0xEDFE7E4B, 0x265E5A51, 0x0);
    assert Sine(19) == 0xE9B6C7AA && Index(19) == 0 && Shift(19) == 20;
    Step(num, at, block, 19, 0x608D6B7E, 0xEDFE7E4B, 0x5DCEE119, 0x2D8071CC, 0x7DCEF059, 0x2C7685E2, 0x5E22C768,
         0x4C2145B3, 0x608D6B7E, 0xEDFE7E4B, 0x7DCEF059, 0x2C7685E2, 0x5E22C768, 0x4C2145B3, 0xE9B6C7AA, 0x64636261);
  }

  lemma Steps20(num: bv32 -> nat, at: (nat, bv32, bv32, bv32, bv32) -> bool, block: seq<word>)
    requires Numbers(num) && IsAlphabet(block) && Follows(num, at, block)
    requires at(20, 0x2D8071CC, 0x4C2145B3, 0xEDFE7E4B, 0x5DCEE119)
    ensures at(24, 0x570C43E0, 0xC9F162D4, 0xC28AB49D, 0x977EFD2A)
  {
    assert Sine(20) == 0xD62F105D && Index(20) == 5 && Shift(20) == 5;
    Step(num, at, block, 20, 0x2D8071CC, 0x4C2145B3, 0xEDFE7E4B, 0x5DCEE119, 0xEC305F53, 0x685757F1, 0x0AEAFE2D,
         0x570C43E0, 0x2D8071CC, 0x4C2145B3, 0xEC305F53, 0x685757F1, 0x0AEAFE2D, 0x570C43E0, 0xD62F105D, 0x78777675);
    assert Sine(21) == 0x02441453 && Index(21) == 10 && Shift(21) == 9;
    Step(num, at, block, 21, 0x5DCEE119, 0x570C43E0, 0x4C2145B3, 0xEDFE7E4B, 0x450D43F0, 0xA520395C, 0x4072B94A,
         0x977EFD2A, 0x5DCEE119, 0x570C43E0, 0x450D43F0, 0xA520395C, 0x4072B94A, 0x977EFD2A, 0x02441453, 0x0);
    assert Sine(22) == 0xD8A1E681 && Index(22) == 15 && Shift(22) == 14;
    Step(num, at, block, 22, 0xEDFE7E4B, 0x977EFD2A, 0x570C43E0, 0x4C2145B3, 0x172C4762, 0xDDCCAC2E, 0x2B0BB773,
         0xC28AB49D, 0xEDFE7E4B, 0x977EFD2A, 0x172C4762, 0xDDCCAC2E, 0x2B0BB773, 0xC28AB49D, 0xD8A1E681, 0x0);
    assert Sine(23) == 0xE7D3FBC8 && Index(23) == 4 && Shift(23) == 20;
    Step(num, at, block, 23, 0x4C2145B3, 0xC28AB49D, 0x977EFD2A, 0x570C43E0, 0xC27ABC8A, 0x6AE37076, 0x0766AE37,
         0xC9F162D4, 0x4C2145B3, 0xC28AB49D, 0xC27ABC8A, 0x6AE37076, 0x0766AE37, 0xC9F162D4, 0xE7D3FBC8, 0x74737271);
  }

  lemma Steps24(num: bv32 -> nat, at: (nat, bv32, bv32, bv32, bv32) -> bool, block: seq<word>)
    requires Numbers(num) && IsAlphabet(block) && Follows(num, at, block)
    requires at(24, 0x570C43E0, 0xC9F162D4, 0xC28AB49D, 0x977EFD2A)
    ensures at(28, 0x25BFAE3B, 0xE6D3B398, 0xF8C8365F, 0x89980104)
  {
    assert Sine(24) == 0x21E1CDE6 && Index(24) == 9 && Shift(24) == 5;
    Step(num, at, block, 24, 0x570C43E0, 0xC9F162D4, 0xC28AB49D, 0x977EFD2A, 0xC1F06095, 0x3ADE725B, 0x5BCE4B67,
         0x25BFAE3B, 0x570C43E0, 0xC9F162D4, 0xC1F06095, 0x3ADE725B, 0x5BCE4B67, 0x25BFAE3B, 0x21E1CDE6, 0x0);
    assert Sine(25) == 0xC33707D6 && Index(25) == 14 && Shift(25) == 9;
    Step(num, at, block, 25, 0x977EFD2A, 0x25BFAE3B, 0xC9F162D4, 0xC28AB49D, 0x09FBE659, 0x64B1EC29, 0x63D852C9,
         0x89980104, 0x977EFD2A, 0x25BFAE3B, 0x09FBE659, 0x64B1EC29, 0x63D852C9, 0x89980104, 0xC33707D6, 0xD0);
    assert Sine(26) == 0xF4D50D87 && Index(26) == 3 && Shift(26) == 14;
    Step(num, at, block, 26, 0xC28AB49D, 0x89980104, 0x25BFAE3B, 0xC9F162D4, 0xAD9E8C2F, 0xD56DBCC0, 0x6F30355B,
         0xF8C8365F, 0xC28AB49D, 0x89980104, 0xAD9E8C2F, 0xD56DBCC0, 0x6F30355B, 0xF8C8365F, 0xF4D50D87, 0x706F6E6D);
    assert Sine(27) == 0x455A14ED && Index(27) == 8 && Shift(27) == 20;
    Step(num, at, block, 27, 0xC9F162D4, 0xF8C8365F, 0x89980104, 0x25BFAE3B, 0xA888271F, 0xB7D39EE0, 0xEE0B7D39,
         0xE6D3B398, 0xC9F162D4, 0xF8C8365F, 0xA888271F, 0xB7D39EE0, 0xEE0B7D39, 0xE6D3B398, 0x455A14ED, 0x0);
  }

  lemma Steps28(num: bv32 -> nat, at: (nat, bv32, bv32, bv32, bv32) -> bool, block: seq<word>)
    requires Numbers(num) && IsAlphabet(block) && Follows(num, at, block)
    requires at(28, 0x25BFAE3B, 0xE6D3B398, 0xF8C8365F, 0x89980104)
    ensures at(32, 0xF54D8710, 0xAEB35766, 0x2E69AFC7, 0x927B72E2)
  {
    assert Sine(28) == 0xA9E3E905 && Index(28) == 13 && Shift(28) == 5;
    Step(num, at, block, 28, 0x25BFAE3B, 0xE6D3B398, 0xF8C8365F, 0x89980104, 0xF0D0375B, 0xC073CE9B, 0x0E79D378,
         0xF54D8710, 0x25BFAE3B, 0xE6D3B398, 0xF0D0375B, 0xC073CE9B, 0x0E79D378, 0xF54D8710, 0xA9E3E905, 0x0);
    assert Sine(29) == 0xFCEFA3F8 && Index(29) == 2 && Shift(29) == 9;
    Step(num, at, block, 29, 0x89980104, 0xF54D8710, 0xE6D3B398, 0xF8C8365F, 0xF65B8790, 0xE94E96F5, 0x9D2DEBD2,
         0x927B72E2, 0x89980104, 0xF54D8710, 0xF65B8790, 0xE94E96F5, 0x9D2DEBD2, 0x927B72E2, 0xFCEFA3F8, 0x6C6B6A69);
    assert Sine(30) == 0x676F02D9 && Index(30) == 7 && Shift(30) == 14;
    Step(num, at, block, 30, 0xF8C8365F, 0x927B72E2, 0xF54D8710, 0xE6D3B398, 0x935F3680, 0xF3966FB8, 0x9BEE3CE5,
         0x2E69AFC7, 0xF8C8365F, 0x927B72E2, 0x935F3680, 0xF3966FB8, 0x9BEE3CE5, 0x2E69AFC7, 0x676F02D9, 0x0);
    assert Sine(31) == 0x8D2A4C8A && Index(31) == 12 && Shift(31) == 20;
    Step(num, at, block, 31, 0xE6D3B398, 0x2E69AFC7, 0x927B72E2, 0xF54D8710, 0x267BF7E2, 0x9A79F804, 0x8049A79F,
         0xAEB35766, 0xE6D3B398, 0x2E69AFC7, 0x267BF7E2, 0x9A79F804, 0x8049A79F, 0xAEB35766, 0x8D2A4C8A, 0x0);
  }

  lemma Steps32(num: bv32 -> nat, at: (nat, bv32, bv32, bv32, bv32) -> bool, block: seq<word>)
    requires Numbers(num) && IsAlphabet(block) && Follows(num, at, block)
    requires at(32, 0xF54D8710, 0xAEB35766, 0x2E69AFC7, 0x927B72E2)
    ensures at(36, 0xB4BF680E, 0x06A5E211, 0x2361ED0A, 0x4C8FFA80)
  {
    assert Sine(32) == 0xFFFA3942 && Index(32) == 5 && Shift(32) == 4;
    Step(num, at, block, 32, 0xF54D8710, 0xAEB35766, 0x2E69AFC7, 0x927B72E2, 0x12A18A43, 0x8060C10A, 0x060C10A8,
         0xB4BF680E, 0xF54D8710, 0xAEB35766, 0x12A18A43, 0x8060C10A, 0x060C10A8, 0xB4BF680E, 0xFFFA3942, 0x78777675);
    assert Sine(33) == 0x8771F681 && Index(33) == 8 && Shift(33) == 11;
    Step(num, at, block, 33, 0x927B72E2, 0xB4BF680E, 0xAEB35766, 0x2E69AFC7, 0x346590AF, 0x4E52FA12, 0x97D09272,
         0x4C8FFA80, 0x927B72E2, 0xB4BF680E, 0x346590AF, 0x4E52FA12, 0x97D09272, 0x4C8FFA80, 0x8771F681, 0x0);
    assert Sine(34) == 0x6D9D6122 && Index(34) == 11 && Shift(34) == 16;
    Step(num, at, block, 34, 0x2E69AFC7, 0x4C8FFA80, 0xB4BF680E, 0xAEB35766, 0x5683C5E8, 0xF28AD6D1, 0xD6D1F28A,
         0x2361ED0A, 0x2E69AFC7, 0x4C8FFA80, 0x5683C5E8, 0xF28AD6D1, 0xD6D1F28A, 0x2361ED0A, 0x6D9D6122, 0x0);
    assert Sine(35) == 0xFDE5380C && Index(35) == 14 && Shift(35) == 23;
    Step(num, at, block, 35, 0xAEB35766, 0x2361ED0A, 0x4C8FFA80, 0xB4BF680E, 0xDB517F84, 0x87EA0FC6, 0xE343F507,
         0x06A5E211, 0xAEB35766, 0x2361ED0A, 0xDB517F84, 0x87EA0FC6, 0xE343F507, 0x06A5E211, 0xFDE5380C, 0xD0);
  }

  lemma Steps36(num: bv32 -> nat, at: (nat, bv32, bv32, bv32, bv32) -> bool, block: seq<word>)
    requires Numbers(num) && IsAlphabet(block) && Follows(num, at, block)
    requires at(36, 0xB4BF680E, 0x06A5E211, 0x2361ED0A, 0x4C8FFA80)
    ensures at(40, 0xB9C0C733, 0x8D41BF99, 0x23A9451B, 0xF1E6DC7A)
  {
    assert Sine(36) == 0xA4BEEA44 && Index(36) == 1 && Shift(36) == 4;
    Step(num, at, block, 36, 0xB4BF680E, 0x06A5E211, 0x2361ED0A, 0x4C8FFA80, 0x694BF59B, 0x2B31AE52, 0xB31AE522,
         0xB9C0C733, 0xB4BF680E, 0x06A5E211, 0x694BF59B, 0x2B31AE52, 0xB31AE522, 0xB9C0C733, 0xA4BEEA44, 0x68676665);
    assert Sine(37) == 0x4BDECFA9 && Index(37) == 4 && Shift(37) == 11;
    Step(num, at, block, 37, 0x4C8FFA80, 0xB9C0C733, 0x06A5E211, 0x2361ED0A, 0x9C04C828, 0xA8E704C2, 0x38261547,
         0xF1E6DC7A, 0x4C8FFA80, 0xB9C0C733, 0x9C04C828, 0xA8E704C2, 0x38261547, 0xF1E6DC7A, 0x4BDECFA9, 0x74737271);
    assert Sine(38) == 0xF6BB4B60 && Index(38) == 7 && Shift(38) == 16;
    Step(num, at, block, 38, 0x2361ED0A, 0xF1E6DC7A, 0xB9C0C733, 0x06A5E211, 0x4E83F958, 0x68A131C2, 0x31C268A1,
         0x23A9451B, 0x2361ED0A, 0xF1E6DC7A, 0x4E83F958, 0x68A131C2, 0x31C268A1, 0x23A9451B, 0xF6BB4B60, 0x0);
    assert Sine(39) == 0xBEBFBC70 && Index(39) == 10 && Shift(39) == 23;
    Step(num, at, block, 39, 0x06A5E211, 0x23A9451B, 0xF1E6DC7A, 0xB9C0C733, 0x6B8F5E52, 0x30F4FCD3, 0x69987A7E,
         0x8D41BF99, 0x06A5E211, 0x23A9451B, 0x6B8F5E52, 0x30F4FCD3, 0x69987A7E, 0x8D41BF99, 0xBEBFBC70, 0x0);
  }

  lemma Steps40(num: bv32 -> nat, at: (nat, bv32, bv32, bv32, bv32) -> bool, block: seq<word>)
    requires Numbers(num) && IsAlphabet(block) && Follows(num, at, block)
    requires at(40, 0xB9C0C733, 0x8D41BF99, 0x23A9451B, 0xF1E6DC7A)
    ensures at(44, 0xA3E88EAD, 0x90A35AF5, 0x66F6468D, 0x02C0B11C)
  {
    assert Sine(40) == 0x289B7EC6 && Index(40) == 13 && Shift(40) == 4;
    Step(num, at, block, 40, 0xB9C0C733, 0x8D41BF99, 0x23A9451B, 0xF1E6DC7A, 0x5F0E26F8, 0x416A6CF1, 0x16A6CF14,
         0xA3E88EAD, 0xB9C0C733, 0x8D41BF99, 0x5F0E26F8, 0x416A6CF1, 0x16A6CF14, 0xA3E88EAD, 0x289B7EC6, 0x0);
    assert Sine(41) == 0xEAA127FA && Index(41) == 0 && Shift(41) == 11;
    Step(num, at, block, 41, 0xF1E6DC7A, 0xA3E88EAD, 0x8D41BF99, 0x23A9451B, 0x0D00742F, 0x4DEBDB04, 0x5ED8226F,
         0x02C0B11C, 0xF1E6DC7A, 0xA3E88EAD, 0x0D00742F, 0x4DEBDB04, 0x5ED8226F, 0x02C0B11C, 0xEAA127FA, 0x64636261);
    assert Sine(42) == 0xD4EF3085 && Index(42) == 3 && Shift(42) == 16;
    Step(num, at, block, 42, 0x23A9451B, 0x02C0B11C, 0xA3E88EAD, 0x8D41BF99, 0x2C698028, 0x95716435, 0x64359571,
         0x66F6468D, 0x23A9451B, 0x02C0B11C, 0x2C698028, 0x95716435, 0x64359571, 0x66F6468D, 0xD4EF3085, 0x706F6E6D);
    assert Sine(43) == 0x04881D05 && Index(43) == 6 && Shift(43) == 23;
    Step(num, at, block, 43, 0x8D41BF99, 0x66F6468D, 0x02C0B11C, 0xA3E88EAD, 0xC7DE793C, 0x5A28D053, 0x29AD1468,
         0x90A35AF5, 0x8D41BF99, 0x66F6468D, 0xC7DE793C, 0x5A28D053, 0x29AD1468, 0x90A35AF5, 0x04881D05, 0x00807A79);
  }

  lemma Steps44(num: bv32 -> nat, at: (nat, bv32, bv32, bv32, bv32) -> bool, block: seq<word>)
    requires Numbers(num) && IsAlphabet(block) && Follows(num, at, block)
    requires at(44, 0xA3E88EAD, 0x90A35AF5, 0x66F6468D, 0x02C0B11C)
    ensures at(48, 0xB5D41F9C, 0x71D10367, 0x703D54D8, 0xA04B4904)
  {
    assert Sine(44) == 0xD9D4D039 && Index(44) == 9 && Shift(44) == 4;
    Step(num, at, block, 44, 0xA3E88EAD, 0x90A35AF5, 0x66F6468D, 0x02C0B11C, 0xF495AD64, 0x72530C4A, 0x2530C4A7,
         0xB5D41F9C, 0xA3E88EAD, 0x90A35AF5, 0xF495AD64, 0x72530C4A, 0x2530C4A7, 0xB5D41F9C, 0xD9D4D039, 0x0);
    assert Sine(45) == 0xE6DB99E5 && Index(45) == 12 && Shift(45) == 11;
    Step(num, at, block, 45, 0x02C0B11C, 0xB5D41F9C, 0x90A35AF5, 0x66F6468D, 0x438103E4, 0x2D1D4EE5, 0xEA772968,
         0xA04B4904, 0x02C0B11C, 0xB5D41F9C, 0x438103E4, 0x2D1D4EE5, 0xEA772968, 0xA04B4904, 0xE6DB99E5, 0x0);
    assert Sine(46) == 0x1FA27CF8 && Index(46) == 15 && Shift(46) == 16;
    Step(num, at, block, 46, 0x66F6468D, 0xA04B4904, 0xB5D41F9C, 0x90A35AF5, 0x853C0C6D, 0x0BD4CFF2, 0xCFF20BD4,
         0x703D54D8, 0x66F6468D, 0xA04B4904, 0x853C0C6D, 0x0BD4CFF2, 0xCFF20BD4, 0x703D54D8, 0x1FA27CF8, 0x0);
    assert Sine(47) == 0xC4AC5665 && Index(47) == 2 && Shift(47) == 23;
    Step(num, at, block, 47, 0x90A35AF5, 0x703D54D8, 0xA04B4904, 0xB5D41F9C, 0x65A20240, 0x275D1E03, 0x0193AE8F,
         0x71D10367, 0x90A35AF5, 0x703D54D8, 0x65A20240, 0x275D1E03, 0x0193AE8F, 0x71D10367, 0xC4AC5665, 0x6C6B6A69);
  }

  lemma Steps48(num: bv32 -> nat, at: (nat, bv32, bv32, bv32, bv32) -> bool, block: seq<word>)
    requires Numbers(num) && IsAlphabet(block) && Follows(num, at, block)
    requires at(48, 0xB5D41F9C, 0x71D10367, 0x703D54D8, 0xA04B4904)
    ensures at(52, 0xFC32DD6E, 0x33EDB197, 0xB35602CB, 0x65456B34)
  {
    assert Sine(48) == 0xF4292244 && Index(48) == 0 && Shift(48) == 6;
    Step(num, at, block, 48, 0xB5D41F9C, 0x71D10367, 0x703D54D8, 0xA04B4904, 0x0FC8E327, 0x1E298768, 0x8A61DA07,
         0xFC32DD6E, 0xB5D41F9C, 0x71D10367, 0x0FC8E327, 0x1E298768, 0x8A61DA07, 0xFC32DD6E, 0xF4292244, 0x64636261);
    assert Sine(49) == 0x432AFF97 && Index(49) == 7 && Shift(49) == 10;
    Step(num, at, block, 49, 0xA04B4904, 0xFC32DD6E, 0x71D10367, 0x703D54D8, 0x8E23FC08, 0x719A44A3, 0x69128DC6,
         0x65456B34, 0xA04B4904, 0xFC32DD6E, 0x8E23FC08, 0x719A44A3, 0x69128DC6, 0x65456B34, 0x432AFF97, 0x0);
    assert Sine(50) == 0xAB9423A7 && Index(50) == 14 && Shift(50) == 15;
    Step(num, at, block, 50, 0x703D54D8, 0x65456B34, 0xFC32DD6E, 0x71D10367, 0x135D22D2, 0x2F2E9C21, 0x4E109797,
         0xB35602CB, 0x703D54D8, 0x65456B34, 0x135D22D2, 0x2F2E9C21, 0x4E109797, 0xB35602CB, 0xAB9423A7, 0xD0);
    assert Sine(51) == 0xFC93A039 && Index(51) == 5 && Shift(51) == 21;
    Step(num, at, block, 51, 0x71D10367, 0xB35602CB, 0x65456B34, 0xFC32DD6E, 0xD69A49EF, 0xBD766404, 0x8097AECC,
         0x33EDB197, 0x71D10367, 0xB35602CB, 0xD69A49EF, 0xBD766404, 0x8097AECC, 0x33EDB197, 0xFC93A039, 0x78777675);
  }

  lemma Steps52(num: bv32 -> nat, at: (nat, bv32, bv32, bv32, bv32) -> bool, block: seq<word>)
    requires Numbers(num) && IsAlphabet(block) && Follows(num, at, block)
    requires at(52, 0xFC32DD6E, 0x33EDB197, 0xB35602CB, 0x65456B34)
    ensures at(56, 0xC1E942F1, 0x83877D1B, 0x23A68048, 0xD9BB987C)
  {
    assert Sine(52) == 0x655B59C3 && Index(52) == 12 && Shift(52) == 6;
    Step(num, at, block, 52, 0xFC32DD6E, 0x33EDB197, 0xB35602CB, 0x65456B34, 0x08A9B714, 0x6A37EE45, 0x8DFB915A,
         0xC1E942F1, 0xFC32DD6E, 0x33EDB197, 0x08A9B714, 0x6A37EE45, 0x8DFB915A, 0xC1E942F1, 0x655B59C3, 0x0);
    assert Sine(53) == 0x8F0CCC92 && Index(53) == 3 && Shift(53) == 10;
    Step(num, at, block, 53, 0x65456B34, 0xC1E942F1, 0x33EDB197, 0xB35602CB, 0xFE044E62, 0x62C5F495, 0x17D2558B,
         0xD9BB987C, 0x65456B34, 0xC1E942F1, 0xFE044E62, 0x62C5F495, 0x17D2558B, 0xD9BB987C, 0x8F0CCC92, 0x706F6E6D);
    assert Sine(54) == 0xFFEFF47D && Index(54) == 10 && Shift(54) == 15;
    Step(num, at, block, 54, 0xB35602CB, 0xD9BB987C, 0xC1E942F1, 0x33EDB197, 0x1C529C8D, 0xCF9893D5, 0x49EAE7CC,
         0x23A68048, 0xB35602CB, 0xD9BB987C, 0x1C529C8D, 0xCF9893D5, 0x49EAE7CC, 0x23A68048, 0xFFEFF47D, 0x0);
    assert Sine(55) == 0x85845DD1 && Index(55) == 1 && Shift(55) == 21;
    Step(num, at, block, 55, 0x33EDB197, 0x23A68048, 0xD9BB987C, 0xC1E942F1, 0xE60D2532, 0x07E69AFF, 0x5FE0FCD3,
         0x83877D1B, 0x33EDB197, 0x23A68048, 0xE60D2532, 0x07E69AFF, 0x5FE0FCD3, 0x83877D1B, 0x85845DD1, 0x68676665);
  }

  lemma Steps56(num: bv32 -> nat, at: (nat, bv32, bv32, bv32, bv32) -> bool, block: seq<word>)
    requires Numbers(num) && IsAlphabet(block) && Follows(num, at, block)
    requires at(56, 0xC1E942F1, 0x83877D1B, 0x23A68048, 0xD9BB987C)
    ensures at(60, 0x0077C208, 0x5E6BC930, 0xA3E2247F, 0x847FC2E7)
  {
    assert Sine(56) == 0x6FA87E4F && Index(56) == 8 && Shift(56) == 6;
    Step(num, at, block, 56, 0xC1E942F1, 0x83877D1B, 0x23A68048, 0xD9BB987C, 0x8461FFD3, 0xB5F3C113, 0x7CF044ED,
         0x0077C208, 0xC1E942F1, 0x83877D1B, 0x8461FFD3, 0xB5F3C113, 0x7CF044ED, 0x0077C208, 0x6FA87E4F, 0x0);
    assert Sine(57) == 0xFE2CE6E0 && Index(57) == 15 && Shift(57) == 10;
    Step(num, at, block, 57, 0xD9BB987C, 0x0077C208, 0x83877D1B, 0x23A68048, 0x5FF882A4, 0x37E10200, 0x840800DF,
         0x847FC2E7, 0xD9BB987C, 0x0077C208, 0x5FF882A4, 0x37E10200, 0x840800DF, 0x847FC2E7, 0xFE2CE6E0, 0x0);
    assert Sine(58) == 0xA3014314 && Index(58) == 6 && Shift(58) == 15;
    Step(num, at, block, 58, 0x23A68048, 0x847FC2E7, 0x0077C208, 0x83877D1B, 0xFC0800EF, 0xC3303EC4, 0x1F626198,
         0xA3E2247F, 0x23A68048, 0x847FC2E7, 0xFC0800EF, 0xC3303EC4, 0x1F626198, 0xA3E2247F, 0xA3014314, 0x00807A79);
    assert Sine(59) == 0x4E0811A1 && Index(59) == 13 && Shift(59) == 21;
    Step(num, at, block, 59, 0x83877D1B, 0xA3E2247F, 0x847FC2E7, 0x0077C208, 0x7B95FF18, 0x4D258DD4, 0xBA89A4B1,
         0x5E6BC930, 0x83877D1B, 0xA3E2247F, 0x7B95FF18, 0x4D258DD4, 0xBA89A4B1, 0x5E6BC930, 0x4E0811A1, 0x0);
  }

  lemma Steps60(num: bv32 -> nat, at: (nat, bv32, bv32, bv32, bv32) -> bool, block: seq<word>)
    requires Numbers(num) && IsAlphabet(block) && Follows(num, at, block)
    requires at(60, 0x0077C208, 0x5E6BC930, 0xA3E2247F, 0x847FC2E7)
    ensures at(64, 0x708ED9C2, 0x1116E6D8, 0xD38F1E7F, 0x2BAF1354)
  {
    assert Sine(60) == 0xF7537E82 && Index(60) == 4 && Shift(60) == 6;
    Step(num, at, block, 60, 0x0077C208, 0x5E6BC930, 0xA3E2247F, 0x847FC2E7, 0xDC09D947, 0x48488C42, 0x12231092,
         0x708ED9C2, 0x0077C208, 0x5E6BC930, 0xDC09D947, 0x48488C42, 0x12231092, 0x708ED9C2, 0xF7537E82, 0x74737271);
    assert Sine(61) == 0xBD3AF235 && Index(61) == 11 && Shift(61) == 10;
    Step(num, at, block, 61, 0x847FC2E7, 0x708ED9C2, 0x5E6BC930, 0xA3E2247F, 0x22F412F2, 0x64AEC80E, 0xBB203992,
         0x2BAF1354, 0x847FC2E7, 0x708ED9C2, 0x22F412F2, 0x64AEC80E, 0xBB203992, 0x2BAF1354, 0xBD3AF235, 0x0);
    assert Sine(62) == 0x2AD7D2BB && Index(62) == 2 && Shift(62) == 15;
    Step(num, at, block, 62, 0xA3E2247F, 0x2BAF1354, 0x708ED9C2, 0x5E6BC930, 0xDB31EE1D, 0x16574FC0, 0xA7E00B2B,
         0xD38F1E7F, 0xA3E2247F, 0x2BAF1354, 0xDB31EE1D, 0x16574FC0, 0xA7E00B2B, 0xD38F1E7F, 0x2AD7D2BB, 0x6C6B6A69);
    assert Sine(63) == 0xEB86D391 && Index(63) == 9 && Shift(63) == 21;
    Step(num, at, block, 63, 0x5E6BC930, 0xD38F1E7F, 0x2BAF1354, 0x708ED9C2, 0xF4502D2B, 0x3E42C9EC, 0x3D87C859,
         0x1116E6D8, 0x5E6BC930, 0xD38F1E7F, 0xF4502D2B, 0x3E42C9EC, 0x3D87C859, 0x1116E6D8, 0xEB86D391, 0x0);
  }

  lemma AllSteps(num: bv32 -> nat, at: (nat, bv32, bv32, bv32, bv32) -> bool, block: seq<word>)
    requires Numbers(num) && IsAlphabet(block) && Follows(num, at, block)
    requires at(0, 0x67452301, 0xEFCDAB89, 0x98BADCFE, 0x10325476)
    ensures at(64, 0x708ED9C2, 0x1116E6D8, 0xD38F1E7F, 0x2BAF1354)
  {
    Steps0(num, at, block);
    Steps4(num, at, block);
    Steps8(num, at, block);
    Steps12(num, at, block);
    Steps16(num, at, block);
    Steps20(num, at, block);
    Steps24(num, at, block);
    Steps28(num, at, block);
    Steps32(num, at, block);
    Steps36(num, at, block);
    Steps40(num, at, block);
    Steps44(num, at, block);
    Steps48(num, at, block);
    Steps52(num, at, block);
    Steps56(num, at, block);
    Steps60(num, at, block);
  }

  // ---------------------------------------------------------------- the digest

  /** "abcdefghijklmnopqrstuvwxyz" */
  function Alphabet(): (m: seq<byte>)
    ensures |m| == 26 && forall k :: 0 <= k < 26 ==> m[k] == 0x61 + k
  {
    seq(26, k requires 0 <= k < 26 => 0x61 + k)
  }

  /** The bytes of the padded alphabet. */
  lemma PaddedAlphabet(p: seq<byte>)
    requires p == Padded(Alphabet())
    ensures |p| == 64 && (forall k :: 0 <= k < 26 ==> p[k] == 0x61 + k) && p[26] == 0x80
    ensures (forall k :: 27 <= k < 56 ==> p[k] == 0) && p[56..] == [0xD0, 0, 0, 0, 0, 0, 0, 0]
  {
    var (m, z) := (Alphabet(), Zeros(29));
    assert (55 - |m|) % 64 == 29 && LengthBytes(26) == [0xD0, 0, 0, 0, 0, 0, 0, 0];
    assert p == m + [0x80] + z + LengthBytes(26);
  }

  lemma WordAt(p: seq<byte>, j: nat)
    requires |p| == 64 && j < 16
    ensures var (b0: nat, b1: nat, b2: nat, b3: nat) := (p[4 * j], p[4 * j + 1], p[4 * j + 2], p[4 * j + 3]);
            BlockWords(p, 0)[j] == b0 + b1 * 0x100 + b2 * 0x1_0000 + b3 * 0x100_0000
  {
    var b := p[4 * j..4 * j + 4];
    assert b[0] == p[4 * j] && b[1] == p[4 * j + 1] && b[2] == p[4 * j + 2] && b[3] == p[4 * j + 3];
  }

  lemma AlphabetWords(p: seq<byte>)
    requires p == Padded(Alphabet())
    ensures |p| == 64 && IsAlphabet(BlockWords(p, 0))
  {
    PaddedAlphabet(p);
    assert p[56..][0] == p[56] && p[56..][1] == p[57] && p[56..][2] == p[58] && p[56..][3] == p[59];
    assert p[56..][4] == p[60] && p[56..][5] == p[61] && p[56..][6] == p[62] && p[56..][7] == p[63];
    WordAt(p, 0); WordAt(p, 1); WordAt(p, 2); WordAt(p, 3);
    WordAt(p, 4); WordAt(p, 5); WordAt(p, 6); WordAt(p, 7);
    WordAt(p, 8); WordAt(p, 9); WordAt(p, 10); WordAt(p, 11);
    WordAt(p, 12); WordAt(p, 13); WordAt(p, 14); WordAt(p, 15);
  }

  /** The initial state, low-order byte first: 01 23 45 67 89 ab cd ef, and then the same backwards. */
  lemma InitialBytes()
    ensures Output(INIT) == [0x01, 0x23, 0x45, 0x67, 0x89, 0xAB, 0xCD, 0xEF,
                             0xFE, 0xDC, 0xBA, 0x98, 0x76, 0x54, 0x32, 0x10]
    ensures forall k :: 0 <= k < 8 ==> Output(INIT)[k] == 0x01 + 0x22 * k == 0xFF - Output(INIT)[8 + k]
  {
    assert Le32(0x67452301) == [0x01, 0x23, 0x45, 0x67] && Le32(0xEFCDAB89) == [0x89, 0xAB, 0xCD, 0xEF];
    assert Le32(0x98BADCFE) == [0xFE, 0xDC, 0xBA, 0x98] && Le32(0x10325476) == [0x76, 0x54, 0x32, 0x10];
  }

  lemma AlphabetRegisters(block: seq<word>)
    requires IsAlphabet(block)
    ensures Registers(INIT, block, 64) == (0x708ED9C2, 0x1116E6D8, 0xD38F1E7F, 0x2BAF1354)
  {
    var at := (i: nat, a: bv32, b: bv32, c: bv32, d: bv32) => RegistersAre(block, i, a, b, c, d);
    StandardFollows(at, block);
    assert RegistersAre(block, 0, 0x67452301, 0xEFCDAB89, 0x98BADCFE, 0x10325476);
    AllSteps(Number, at, block);
    assert RegistersAre(block, 64, 0x708ED9C2, 0x1116E6D8, 0xD38F1E7F, 0x2BAF1354);
  }

  /** The state after the only block of a message. */
  lemma OneBlock(p: seq<byte>, block: seq<word>, r: (word, word, word, word))
    requires |p| == 64 && block == BlockWords(p, 0) && Registers(INIT, block, 64) == r
    ensures Absorb(p, |p| / 64) == Added(INIT, r)
  {
    assert Absorb(p, 0) == INIT;
    assert Compress(INIT, block) == Added(INIT, r);
  }

  lemma AlphabetSum(r: (word, word, word, word))
    requires r == (0x708ED9C2, 0x1116E6D8, 0xD38F1E7F, 0x2BAF1354)
    ensures Added(INIT, r) == [0xD7D3FCC3, 0x00E49261, 0x6C49FB7D, 0x3BE167CA]
  {
  }

  /** The digest of the alphabet is c3fcd3d7 6192e400 7dfb496c ca67e13b. */
  lemma AlphabetDigest()
    ensures Digest(Alphabet())
         == [0xC3, 0xFC, 0xD3, 0xD7, 0x61, 0x92, 0xE4, 0x00,
             0x7D, 0xFB, 0x49, 0x6C, 0xCA, 0x67, 0xE1, 0x3B]
  {
    var p := Padded(Alphabet());
    var block := BlockWords(p, 0);
    AlphabetWords(p);
    AlphabetRegisters(block);
    OneBlock(p, block, Registers(INIT, block, 64));
    AlphabetSum(Registers(INIT, block, 64));
    AlphabetOutput(Absorb(p, |p| / 64));
  }

  lemma AlphabetOutput(state: seq<word>)
    requires state == [0xD7D3FCC3, 0x00E49261, 0x6C49FB7D, 0x3BE167CA]
    ensures Output(state)
         == [0xC3, 0xFC, 0xD3, 0xD7, 0x61, 0x92, 0xE4, 0x00,
             0x7D, 0xFB, 0x49, 0x6C, 0xCA, 0x67, 0xE1, 0x3B]
  {
    assert Le32(0xD7D3FCC3) == [0xC3, 0xFC, 0xD3, 0xD7];
    assert Le32(0x00E49261) == [0x61, 0x92, 0xE4, 0x00];
    assert Le32(0x6C49FB7D) == [0x7D, 0xFB, 0x49, 0x6C];
    assert Le32(0x3BE167CA) == [0xCA, 0x67, 0xE1, 0x3B];
  }
}
