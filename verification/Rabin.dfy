/** The Rabin fingerprint of delta.c: its two tables and its update steps.  A
    fingerprint never uses its top bit, which is what keeps `T[val >> 23]` inside
    the table of 256 entries. */
module Rabin {
  import opened Common

  const RABIN_WINDOW: nat := 16

  /** Entry k of a row of sixteen. */
  function Select(k: bv32,
                  r0: bv32, r1: bv32, r2: bv32, r3: bv32, r4: bv32, r5: bv32, r6: bv32, r7: bv32,
                  r8: bv32, r9: bv32, r10: bv32, r11: bv32, r12: bv32, r13: bv32, r14: bv32, r15: bv32): bv32
  {
    match k
    case 0 => r0 case 1 => r1 case 2 => r2 case 3 => r3 case 4 => r4 case 5 => r5 case 6 => r6 case 7 => r7
    case 8 => r8 case 9 => r9 case 10 => r10 case 11 => r11 case 12 => r12 case 13 => r13 case 14 => r14 case _ => r15
  }

  /** A row of the table T, in which the top bit says whether the place is odd. */
  function Row(k: bv32,
               r0: bv32, r1: bv32, r2: bv32, r3: bv32, r4: bv32, r5: bv32, r6: bv32, r7: bv32,
               r8: bv32, r9: bv32, r10: bv32, r11: bv32, r12: bv32, r13: bv32, r14: bv32, r15: bv32): (r: bv32)
    requires r0 >> 31 == r2 >> 31 == r4 >> 31 == r6 >> 31 == r8 >> 31 == r10 >> 31 == r12 >> 31 == r14 >> 31 == 0
    requires r1 >> 31 == r3 >> 31 == r5 >> 31 == r7 >> 31 == r9 >> 31 == r11 >> 31 == r13 >> 31 == r15 >> 31 == 1
    requires k < 16
    ensures r >> 31 == k & 1
  {
    Select(k, r0, r1, r2, r3, r4, r5, r6, r7, r8, r9, r10, r11, r12, r13, r14, r15)
  }

  function T0(k: bv32): (r: bv32)
    requires k < 64
    ensures r >> 31 == k & 1
  {
    match k >> 4
    case 0 => Row(k & 15,
      0x00000000, 0xab59b4d1, 0x56b369a2, 0xfdeadd73, 0x063f6795, 0xad66d344, 0x508c0e37, 0xfbd5bae6,
      0x0c7ecf2a, 0xa7277bfb, 0x5acda688, 0xf1941259, 0x0a41a8bf, 0xa1181c6e, 0x5cf2c11d, 0xf7ab75cc)
    case 1 => Row(k & 15,
      0x18fd9e54, 0xb3a42a85, 0x4e4ef7f6, 0xe5174327, 0x1ec2f9c1, 0xb59b4d10, 0x48719063, 0xe32824b2,
      0x1483517e, 0xbfdae5af, 0x423038dc, 0xe9698c0d, 0x12bc36eb, 0xb9e5823a, 0x440f5f49, 0xef56eb98)
    case 2 => Row(k & 15,
      0x31fb3ca8, 0x9aa28879, 0x6748550a, 0xcc11e1db, 0x37c45b3d, 0x9c9defec, 0x6177329f, 0xca2e864e,
      0x3d85f382, 0x96dc4753, 0x6b369a20, 0xc06f2ef1, 0x3bba9417, 0x90e320c6, 0x6d09fdb5, 0xc6504964)
    case _ => Row(k & 15,
      0x2906a2fc, 0x825f162d, 0x7fb5cb5e, 0xd4ec7f8f, 0x2f39c569, 0x846071b8, 0x798aaccb, 0xd2d3181a,
      0x25786dd6, 0x8e21d907, 0x73cb0474, 0xd892b0a5, 0x23470a43, 0x881ebe92, 0x75f463e1, 0xdeadd730)
  }

  function T1(k: bv32): (r: bv32)
    requires k < 64
    ensures r >> 31 == k & 1
  {
    match k >> 4
    case 0 => Row(k & 15,
      0x63f67950, 0xc8afcd81, 0x354510f2, 0x9e1ca423, 0x65c91ec5, 0xce90aa14, 0x337a7767, 0x9823c3b6,
      0x6f88b67a, 0xc4d102ab, 0x393bdfd8, 0x92626b09, 0x69b7d1ef, 0xc2ee653e, 0x3f04b84d, 0x945d0c9c)
    case 1 => Row(k & 15,
      0x7b0be704, 0xd05253d5, 0x2db88ea6, 0x86e13a77, 0x7d348091, 0xd66d3440, 0x2b87e933, 0x80de5de2,
      0x7775282e, 0xdc2c9cff, 0x21c6418c, 0x8a9ff55d, 0x714a4fbb, 0xda13fb6a, 0x27f92619, 0x8ca092c8)
    case 2 => Row(k & 15,
      0x520d45f8, 0xf954f129, 0x04be2c5a, 0xafe7988b, 0x5432226d, 0xff6b96bc, 0x02814bcf, 0xa9d8ff1e,
      0x5e738ad2, 0xf52a3e03, 0x08c0e370, 0xa39957a1, 0x584ced47, 0xf3155996, 0x0eff84e5, 0xa5a63034)
    case _ => Row(k & 15,
      0x4af0dbac, 0xe1a96f7d, 0x1c43b20e, 0xb71a06df, 0x4ccfbc39, 0xe79608e8, 0x1a7cd59b, 0xb125614a,
      0x468e1486, 0xedd7a057, 0x103d7d24, 0xbb64c9f5, 0x40b17313, 0xebe8c7c2, 0x16021ab1, 0xbd5bae60)
  }

  function T2(k: bv32): (r: bv32)
    requires k < 64
    ensures r >> 31 == k & 1
  {
    match k >> 4
    case 0 => Row(k & 15,
      0x6cb54671, 0xc7ecf2a0, 0x3a062fd3, 0x915f9b02, 0x6a8a21e4, 0xc1d39535, 0x3c394846, 0x9760fc97,
      0x60cb895b, 0xcb923d8a, 0x3678e0f9, 0x9d215428, 0x66f4eece, 0xcdad5a1f, 0x3047876c, 0x9b1e33bd)
    case 1 => Row(k & 15,
      0x7448d825, 0xdf116cf4, 0x22fbb187, 0x89a20556, 0x7277bfb0, 0xd92e0b61, 0x24c4d612, 0x8f9d62c3,
      0x7836170f, 0xd36fa3de, 0x2e857ead, 0x85dcca7c, 0x7e09709a, 0xd550c44b, 0x28ba1938, 0x83e3ade9)
    case 2 => Row(k & 15,
      0x5d4e7ad9, 0xf617ce08, 0x0bfd137b, 0xa0a4a7aa, 0x5b711d4c, 0xf028a99d, 0x0dc274ee, 0xa69bc03f,
      0x5130b5f3, 0xfa690122, 0x0783dc51, 0xacda6880, 0x570fd266, 0xfc5666b7, 0x01bcbbc4, 0xaae50f15)
    case _ => Row(k & 15,
      0x45b3e48d, 0xeeea505c, 0x13008d2f, 0xb85939fe, 0x438c8318, 0xe8d537c9, 0x153feaba, 0xbe665e6b,
      0x49cd2ba7, 0xe2949f76, 0x1f7e4205, 0xb427f6d4, 0x4ff24c32, 0xe4abf8e3, 0x19412590, 0xb2189141)
  }

  function T3(k: bv32): (r: bv32)
    requires k < 64
    ensures r >> 31 == k & 1
  {
    match k >> 4
    case 0 => Row(k & 15,
      0x0f433f21, 0xa41a8bf0, 0x59f05683, 0xf2a9e252, 0x097c58b4, 0xa225ec65, 0x5fcf3116, 0xf49685c7,
      0x033df00b, 0xa86444da, 0x558e99a9, 0xfed72d78, 0x0502979e, 0xae5b234f, 0x53b1fe3c, 0xf8e84aed)
    case 1 => Row(k & 15,
      0x17bea175, 0xbce715a4, 0x410dc8d7, 0xea547c06, 0x1181c6e0, 0xbad87231, 0x4732af42, 0xec6b1b93,
      0x1bc06e5f, 0xb099da8e, 0x4d7307fd, 0xe62ab32c, 0x1dff09ca, 0xb6a6bd1b, 0x4b4c6068, 0xe015d4b9)
    case 2 => Row(k & 15,
      0x3eb80389, 0x95e1b758, 0x680b6a2b, 0xc352defa, 0x3887641c, 0x93ded0cd, 0x6e340dbe, 0xc56db96f,
      0x32c6cca3, 0x999f7872, 0x6475a501, 0xcf2c11d0, 0x34f9ab36, 0x9fa01fe7, 0x624ac294, 0xc9137645)
    case _ => Row(k & 15,
      0x26459ddd, 0x8d1c290c, 0x70f6f47f, 0xdbaf40ae, 0x207afa48, 0x8b234e99, 0x76c993ea, 0xdd90273b,
      0x2a3b52f7, 0x8162e626, 0x7c883b55, 0xd7d18f84, 0x2c043562, 0x875d81b3, 0x7ab75cc0, 0xd1eee811)
  }

  /** The table T, by which a fingerprint is reduced after a shift.  Bit 31 of T[k] is bit 0 of k. */
  function T(k: bv32): (r: bv32)
    requires k < 256
    ensures r >> 31 == k & 1
  {
    if k < 64 then T0(k) else if k < 128 then T1(k & 63) else if k < 192 then T2(k & 63) else T3(k & 63)
  }

  function U0(k: bv32): (r: bv32)
    requires k < 64
    ensures r < 0x8000_0000
  {
    match k >> 4
    case 0 => Select(k & 15,
      0x00000000, 0x7eb5200d, 0x5633f4cb, 0x2886d4c6, 0x073e5d47, 0x798b7d4a, 0x510da98c, 0x2fb88981,
      0x0e7cba8e, 0x70c99a83, 0x584f4e45, 0x26fa6e48, 0x0942e7c9, 0x77f7c7c4, 0x5f711302, 0x21c4330f)
    case 1 => Select(k & 15,
      0x1cf9751c, 0x624c5511, 0x4aca81d7, 0x347fa1da, 0x1bc7285b, 0x65720856, 0x4df4dc90, 0x3341fc9d,
      0x1285cf92, 0x6c30ef9f, 0x44b63b59, 0x3a031b54, 0x15bb92d5, 0x6b0eb2d8, 0x4388661e, 0x3d3d4613)
    case 2 => Select(k & 15,
      0x39f2ea38, 0x4747ca35, 0x6fc11ef3, 0x11743efe, 0x3eccb77f, 0x40799772, 0x68ff43b4, 0x164a63b9,
      0x378e50b6, 0x493b70bb, 0x61bda47d, 0x1f088470, 0x30b00df1, 0x4e052dfc, 0x6683f93a, 0x1836d937)
    case _ => Select(k & 15,
      0x250b9f24, 0x5bbebf29, 0x73386bef, 0x0d8d4be2, 0x2235c263, 0x5c80e26e, 0x740636a8, 0x0ab316a5,
      0x2b7725aa, 0x55c205a7, 0x7d44d161, 0x03f1f16c, 0x2c4978ed, 0x52fc58e0, 0x7a7a8c26, 0x04cfac2b)
  }

  function U1(k: bv32): (r: bv32)
    requires k < 64
    ensures r < 0x8000_0000
  {
    match k >> 4
    case 0 => Select(k & 15,
      0x73e5d470, 0x0d50f47d, 0x25d620bb, 0x5b6300b6, 0x74db8937, 0x0a6ea93a, 0x22e87dfc, 0x5c5d5df1,
      0x7d996efe, 0x032c4ef3, 0x2baa9a35, 0x551fba38, 0x7aa733b9, 0x041213b4, 0x2c94c772, 0x5221e77f)
    case 1 => Select(k & 15,
      0x6f1ca16c, 0x11a98161, 0x392f55a7, 0x479a75aa, 0x6822fc2b, 0x1697dc26, 0x3e1108e0, 0x40a428ed,
      0x61601be2, 0x1fd53bef, 0x3753ef29, 0x49e6cf24, 0x665e46a5, 0x18eb66a8, 0x306db26e, 0x4ed89263)
    case 2 => Select(k & 15,
      0x4a173e48, 0x34a21e45, 0x1c24ca83, 0x6291ea8e, 0x4d29630f, 0x339c4302, 0x1b1a97c4, 0x65afb7c9,
      0x446b84c6, 0x3adea4cb, 0x1258700d, 0x6ced5000, 0x4355d981, 0x3de0f98c, 0x15662d4a, 0x6bd30d47)
    case _ => Select(k & 15,
      0x56ee4b54, 0x285b6b59, 0x00ddbf9f, 0x7e689f92, 0x51d01613, 0x2f65361e, 0x07e3e2d8, 0x7956c2d5,
      0x5892f1da, 0x2627d1d7, 0x0ea10511, 0x7014251c, 0x5facac9d, 0x21198c90, 0x099f5856, 0x772a785b)
  }

  function U2(k: bv32): (r: bv32)
    requires k < 64
    ensures r < 0x8000_0000
  {
    match k >> 4
    case 0 => Select(k & 15,
      0x4c921c31, 0x32273c3c, 0x1aa1e8fa, 0x6414c8f7, 0x4bac4176, 0x3519617b, 0x1d9fb5bd, 0x632a95b0,
      0x42eea6bf, 0x3c5b86b2, 0x14dd5274, 0x6a687279, 0x45d0fbf8, 0x3b65dbf5, 0x13e30f33, 0x6d562f3e)
    case 1 => Select(k & 15,
      0x506b692d, 0x2ede4920, 0x06589de6, 0x78edbdeb, 0x5755346a, 0x29e01467, 0x0166c0a1, 0x7fd3e0ac,
      0x5e17d3a3, 0x20a2f3ae, 0x08242768, 0x76910765, 0x59298ee4, 0x279caee9, 0x0f1a7a2f, 0x71af5a22)
    case 2 => Select(k & 15,
      0x7560f609, 0x0bd5d604, 0x235302c2, 0x5de622cf, 0x725eab4e, 0x0ceb8b43, 0x246d5f85, 0x5ad87f88,
      0x7b1c4c87, 0x05a96c8a, 0x2d2fb84c, 0x539a9841, 0x7c2211c0, 0x029731cd, 0x2a11e50b, 0x54a4c506)
    case _ => Select(k & 15,
      0x69998315, 0x172ca318, 0x3faa77de, 0x411f57d3, 0x6ea7de52, 0x1012fe5f, 0x38942a99, 0x46210a94,
      0x67e5399b, 0x19501996, 0x31d6cd50, 0x4f63ed5d, 0x60db64dc, 0x1e6e44d1, 0x36e89017, 0x485db01a)
  }

  function U3(k: bv32): (r: bv32)
    requires k < 64
    ensures r < 0x8000_0000
  {
    match k >> 4
    case 0 => Select(k & 15,
      0x3f77c841, 0x41c2e84c, 0x69443c8a, 0x17f11c87, 0x38499506, 0x46fcb50b, 0x6e7a61cd, 0x10cf41c0,
      0x310b72cf, 0x4fbe52c2, 0x67388604, 0x198da609, 0x36352f88, 0x48800f85, 0x6006db43, 0x1eb3fb4e)
    case 1 => Select(k & 15,
      0x238ebd5d, 0x5d3b9d50, 0x75bd4996, 0x0b08699b, 0x24b0e01a, 0x5a05c017, 0x728314d1, 0x0c3634dc,
      0x2df207d3, 0x534727de, 0x7bc1f318, 0x0574d315, 0x2acc5a94, 0x54797a99, 0x7cffae5f, 0x024a8e52)
    case 2 => Select(k & 15,
      0x06852279, 0x78300274, 0x50b6d6b2, 0x2e03f6bf, 0x01bb7f3e, 0x7f0e5f33, 0x57888bf5, 0x293dabf8,
      0x08f998f7, 0x764cb8fa, 0x5eca6c3c, 0x207f4c31, 0x0fc7c5b0, 0x7172e5bd, 0x59f4317b, 0x27411176)
    case _ => Select(k & 15,
      0x1a7c5765, 0x64c97768, 0x4c4fa3ae, 0x32fa83a3, 0x1d420a22, 0x63f72a2f, 0x4b71fee9, 0x35c4dee4,
      0x1400edeb, 0x6ab5cde6, 0x42331920, 0x3c86392d, 0x133eb0ac, 0x6d8b90a1, 0x450d4467, 0x3bb8646a)
  }

  /** The table U, which takes the oldest byte of the window out of a fingerprint. */
  function U(k: bv32): (r: bv32)
    requires k < 256
    ensures r < 0x8000_0000
  {
    if k < 64 then U0(k) else if k < 128 then U1(k & 63) else if k < 192 then U2(k & 63) else U3(k & 63)
  }

  /** A fingerprint value: 31 bits. */
  type fingerprint = v: bv32 | v < 0x8000_0000

  /** Shift byte c in and reduce. */
  function Shift(val: fingerprint, c: byte): fingerprint {
    var b := c as bv32;
    TopBitCancels(val, b);
    ((val << 8) | b) ^ T(val >> 23)
  }

  lemma TopBitCancels(val: bv32, c: bv32)
    requires val < 0x8000_0000 && c < 256
    ensures val >> 23 < 256
    ensures ((val << 8) | c) ^ T(val >> 23) < 0x8000_0000
  {
    hide T;
    Cancel(val, c, T(val >> 23));
  }

  lemma Cancel(val: bv32, c: bv32, t: bv32)
    requires val < 0x8000_0000 && c < 256 && t >> 31 == (val >> 23) & 1
    ensures ((val << 8) | c) ^ t < 0x8000_0000
  {
  }

  /** Take the oldest byte of the window out. */
  function Drop(val: fingerprint, c: byte): fingerprint {
    var b := c as bv32;
    val ^ U(b)
  }

  /** The fingerprint of a window. */
  function Fingerprint(window: seq<byte>): fingerprint {
    if window == [] then 0 else Shift(Fingerprint(window[..|window| - 1]), window[|window| - 1])
  }
}
