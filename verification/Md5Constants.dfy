/** Where the additive constants of MD5 come from (section 3.4 of RFC 1321): T[i] is the whole part of
    4294967296 times the absolute value of sin(i), with i in radians. */
module Md5Constants {
  // ----- sine and cosine -----

  /** The last two factors of (2k+3)! and of (2k+2)!. */
  function OddFactor(k: nat): nat { (2 * k + 2) * (2 * k + 3) }

  function EvenFactor(k: nat): nat { (2 * k + 1) * (2 * k + 2) }

  /** (2k+1)! and (2k)!. */
  function Odd(k: nat): (r: nat)
    ensures r > 0
  {
    if k == 0 then 1 else OddFactor(k - 1) * Odd(k - 1)
  }

  function Even(k: nat): (r: nat)
    ensures r > 0
  {
    if k == 0 then 1 else EvenFactor(k - 1) * Even(k - 1)
  }

  /** The terms up to x^(2k+1) and x^(2k) of the two power series, at x = 1, over these
      denominators. */
  function SineSum(k: nat): int
  {
    if k == 0 then 1 else OddFactor(k - 1) * SineSum(k - 1) + (if k % 2 == 0 then 1 else -1)
  }

  function CosineSum(k: nat): int
  {
    if k == 0 then 1 else EvenFactor(k - 1) * CosineSum(k - 1) + (if k % 2 == 0 then 1 else -1)
  }

  predicate SineBracket(x: real, k: nat)
  {
    SineSum(2 * k + 1) as real <= x * Odd(2 * k + 1) as real && x * Odd(2 * k) as real <= SineSum(2 * k) as real
  }

  predicate CosineBracket(x: real, k: nat)
  {
    && CosineSum(2 * k + 1) as real <= x * Even(2 * k + 1) as real
    && x * Even(2 * k) as real <= CosineSum(2 * k) as real
  }

  /** x is sin(1): the sums of the alternating series lie below and above it in turn. */
  ghost predicate IsSineOfOne(x: real) { forall k: nat :: SineBracket(x, k) }

  /** x is cos(1). */
  ghost predicate IsCosineOfOne(x: real) { forall k: nat :: CosineBracket(x, k) }

  /** sin(n), from sin(1) and cos(1) by the addition theorem. */
  function Sine(n: nat, s: real, c: real): real
  {
    if n == 0 then 0.0 else if n == 1 then s else 2.0 * c * Sine(n - 1, s, c) - Sine(n - 2, s, c)
  }

  // ----- approximations -----

  /** 2^160 and 2^128. */
  const SCALE: int := 0x10000000000000000000000000000000000000000
  const UNIT: int := 0x100000000000000000000000000000000

  /** sin(1) and cos(1), times 2^160 and rounded down. */
  const SIN: int := 0xd76aa47848677020c6e9e909c50f3c3289e51113
  const COS: int := 0x8a51407da8345c91c2466d976871bd29a2373a89

  /** sin(n), times 2^160, nearly. */
  function Approximation(n: nat): int
    requires n <= 64
  {
    if n == 0 then 0 else ApproximationRow((n - 1) / 8, (n - 1) % 8)
  }

  function ApproximationRow(row: nat, i: nat): int
    requires row < 8 && i < 8
  {
    if row == 0 then [
      0xd76aa47848677020c6e9e909c50f3c3289e51113,
      0xe8c7b7568da22efd5c240c4004e4ddca8aa4ff16,
      0x242070db6daab69e3902e846831506965af16fbb,
      -0xc1bdceeee0f5738674c02ad072286c9e2d38d0d5,
      -0xf57c0faf04c999135789f2ab1de2fd1c1682f463,
      -0x4787c62ac28b00e989105113d288512de04e3371,
      0xa83046136850421dd444208fd778967fcc08507f,
      0xfd469501467bd74fb15853828466f0a770f6085b][i]
    else if row == 1 then [
      0x698098d830be42487274a8291c67aa3fb742404a,
      -0x8b44f7af9a7a92ce7fb22be024e200094eaf8522,
      -0xffff5bb1749f56ad6387c28327e3ce7fde794287,
      -0x895cd7bebb2d2a4e0f2853fa36d7529a7b84f597,
      0x6b90112207141869f4a73ece8a8d7c053c7cbe6e,
      0xfd987193e2f224ea5bb0ee037bc3014c7f6066b2,
      0xa679438e761742e95c9a4e93999537720ac74702,
      -0x49b408217c83df90508b20b008b36eb66ba79c07][i]
    else if row == 2 then [
      -0xf61e256214415b768a021d600d76425ce9a65799,
      -0xc040b34098f1339dabd109367ef9e51e5eb37e10,
      0x265e5a51eb099d08e4babcc6307733ec440c3748,
      0xe9b6c7aae9e6ff24afc0510a4786fdd7ed631955,
      0xd62f105d86bf656afcd82f211a74622b10229fc6,
      -0x2441453edd73e7abed1d0efcabeab5bca75040d,
      -0xd8a1e68123e80fd8ad1e71e4b30d2ab3d73ed05f,
      -0xe7d3fbc8c8a074802cf40dd3544dabd1f7f31f8e][i]
    else if row == 3 then [
      -0x21e1cde63d0139ed8f4376deb8eaeb5ede12b81e,
      0xc33707d6192c1b727f314f991b6111334a688791,
      0xf4d50d872dd17eeb0becdcfb3a8b515890346fa8,
      0x455a14ed1453563f922cc06d843458afdcc7cc2b,
      -0xa9e3e905364f354b0641ab715994376ec2e3aa20,
      -0xfcefa3f8e481e55d994fb58c1a2b2cfec11ecc3d,
      -0x676f02d903f202feb00c68ec9052eca4b0276311,
      0x8d2a4c8a132b2d72b25f0b53450236f8cae4f765][i]
    else if row == 4 then [
      0xfffa39420b11bd78e243abdb19026898abd60f96,
      0x8771f681c3ed06027e9cc568b2af5653e55a7539,
      -0x6d9d6122332f9e85effcf62c7f80baa648aab236,
      -0xfde5380c670e1cbd4b69e3c255cdf666738f2b4c,
      -0xa4beea447f487554f2db8a35b813b762cde0b3e9,
      0x4bdecfa91e6a73ad08d1086736a9fb55f8ffde3d,
      0xf6bb4b6020374db6811846fde07024d87b255404,
      0xbebfbc7013f7fc8a62e1c0b33d1c5e2562d53ae7][i]
    else if row == 5 then [
      -0x289b7ec6eba38fe95293548056054577c52f2702,
      -0xeaa127fa607f68357e3b0e29d788f451438ce1e6,
      -0xd4ef30853a8897721babc0a015027dcaeafd92c7,
      0x4881d05676c1046351bf69eaa794e07511ca09f,
      0xd9d4d039ecd8170700e3e757f8da4c43d0e88532,
      0xe6db99e510c58592e2920ca41dd6838b161eceba,
      0x1fa27cf8daf6f636ead9b588b01998b4ed0eec36,
      -0xc4ac5665627c066c59f19bf8b6f2cb75b7afbaa5][i]
    else if row == 6 then [
      -0xf4292244133eb583fafe816601e97c569c47e53d,
      -0x432aff97f37f2151d2e56b1d1ac85723c720e632,
      0xab9423a71284117ea9599873e5aeaa36dedf6ba3,
      0xfc93a0392526353b3161dbadc7ef85d02e2337fa,
      0x655b59c3b1e2c1620aff457533e524541165c113,
      -0x8f0ccc922e3e4cf7a0895dbffc226097ed696009,
      -0xffeff47d95035ed118d5683df37f05fedd200654,
      -0x85845dd128c8d20113dc42630841aa09f99bb789][i]
    else [
      0x6fa87e4f750e8134fd18e9f169832e309beaae56,
      0xfe2ce6e09db26f9764138d791967ca09578c6e4a,
      0xa3014314c866594e617751aeb25bb4299cf52cc4,
      -0x4e0811a11b83099a70468e546a95d0739ad6b1f9,
      -0xf7537e82453f50849ed120cba4358104cb772eca,
      -0xbd3af235f1627bf0cdab28308e18c72d0bc8f83f,
      0x2ad7d2bb99881a808dbf14868d14afdd5c4197fc,
      0xeb86d391860ec3dbe6b444b1da027f9961b70a71][i]
  }

  function Abs(x: int): nat { if x < 0 then -x else x }

  /** The additive constant of step i, numbered from 0. */
  function Additive(i: nat): (t: nat)
    requires i < 64
    ensures t < 0x1_0000_0000
  {
    AdditiveRow(i / 8, i % 8)
  }

  function AdditiveRow(row: nat, i: nat): (t: nat)
    requires row < 8 && i < 8
    ensures t < 0x1_0000_0000
  {
    if row == 0 then [0xd76aa478, 0xe8c7b756, 0x242070db, 0xc1bdceee, 0xf57c0faf, 0x4787c62a, 0xa8304613, 0xfd469501][i]
    else if row == 1 then
      [0x698098d8, 0x8b44f7af, 0xffff5bb1, 0x895cd7be, 0x6b901122, 0xfd987193, 0xa679438e, 0x49b40821][i]
    else if row == 2 then
      [0xf61e2562, 0xc040b340, 0x265e5a51, 0xe9b6c7aa, 0xd62f105d, 0x02441453, 0xd8a1e681, 0xe7d3fbc8][i]
    else if row == 3 then
      [0x21e1cde6, 0xc33707d6, 0xf4d50d87, 0x455a14ed, 0xa9e3e905, 0xfcefa3f8, 0x676f02d9, 0x8d2a4c8a][i]
    else if row == 4 then
      [0xfffa3942, 0x8771f681, 0x6d9d6122, 0xfde5380c, 0xa4beea44, 0x4bdecfa9, 0xf6bb4b60, 0xbebfbc70][i]
    else if row == 5 then
      [0x289b7ec6, 0xeaa127fa, 0xd4ef3085, 0x04881d05, 0xd9d4d039, 0xe6db99e5, 0x1fa27cf8, 0xc4ac5665][i]
    else if row == 6 then
      [0xf4292244, 0x432aff97, 0xab9423a7, 0xfc93a039, 0x655b59c3, 0x8f0ccc92, 0xffeff47d, 0x85845dd1][i]
    else [0x6fa87e4f, 0xfe2ce6e0, 0xa3014314, 0x4e0811a1, 0xf7537e82, 0xbd3af235, 0x2ad7d2bb, 0xeb86d391][i]
  }

  /** How far the approximations may be off. */
  function Margin(n: nat): (e: nat)
    ensures e > 0
  {
    if n == 0 then 4 else 3 * Margin(n - 1)
  }

  // ----- the approximations belong to one another -----

  /** Three neighbours satisfy the addition theorem up to rounding. */
  predicate Follows(n: nat)
    requires n < 64 && n > 0
  {
    -SCALE <= 2 * COS * Approximation(n) - SCALE * (Approximation(n - 1) + Approximation(n + 1)) <= SCALE
  }

  lemma FollowsFirst(n: nat)
    requires 1 <= n < 16
    ensures Follows(n)
  {
  }

  lemma FollowsSecond(n: nat)
    requires 16 <= n < 32
    ensures Follows(n)
  {
  }

  lemma FollowsThird(n: nat)
    requires 32 <= n < 48
    ensures Follows(n)
  {
  }

  lemma FollowsFourth(n: nat)
    requires 48 <= n < 56
    ensures Follows(n)
  {
  }

  lemma FollowsLast(n: nat)
    requires 56 <= n < 64
    ensures Follows(n)
  {
  }

  /** The approximation is bounded, and its whole part is the additive constant whatever the margin
      decides. */
  predicate Clear(n: nat)
    requires n <= 64
  {
    var a := Abs(Approximation(n));
    a <= SCALE && (n > 0 ==> Additive(n - 1) * UNIT + MARGIN <= a < (Additive(n - 1) + 1) * UNIT - MARGIN)
  }

  /** Margin(64). */
  const MARGIN: nat := 0xad5b52be3de4c89e31e5faf404

  lemma ClearFirst(n: nat)
    requires 0 <= n < 16
    ensures Clear(n)
  {
  }

  lemma ClearSecond(n: nat)
    requires 16 <= n < 32
    ensures Clear(n)
  {
  }

  lemma ClearThird(n: nat)
    requires 32 <= n < 48
    ensures Clear(n)
  {
  }

  lemma ClearLast(n: nat)
    requires 48 <= n < 65
    ensures Clear(n)
  {
  }

  lemma FollowsAll(n: nat)
    requires 0 < n < 64
    ensures Follows(n)
  {
    if n < 16 {
      FollowsFirst(n);
    } else if n < 32 {
      FollowsSecond(n);
    } else if n < 48 {
      FollowsThird(n);
    } else if n < 56 {
      FollowsFourth(n);
    } else {
      FollowsLast(n);
    }
  }

  lemma ClearAll(n: nat)
    requires n <= 64
    ensures Clear(n)
  {
    if n < 16 {
      ClearFirst(n);
    } else if n < 32 {
      ClearSecond(n);
    } else if n < 48 {
      ClearThird(n);
    } else {
      ClearLast(n);
    }
  }

  // ----- and they are close to the sine -----

  lemma FirstTerms(z: nat)
    requires z == 0
    ensures SineSum(z) == CosineSum(z) == Odd(z) == Even(z) == 1
  {
  }

  /** One more term. */
  lemma NextSine(k: nat, v: int, d: nat, f: int, w: int, e: nat)
    requires SineSum(k) == v && Odd(k) == d && f == OddFactor(k)
    requires w == f * v + (if k % 2 == 1 then 1 else -1) && e == f * d
    ensures SineSum(k + 1) == w && Odd(k + 1) == e
  {
    hide OddFactor;
  }

  /** Where the series stands after 22 and after 23 terms. */
  lemma SineSums(z: nat)
    requires z == 0
    ensures SineSum(z + 21) == 0x87e08f46588fc02f55d4dffa732c142c2c7665055dbd
    ensures Odd(z + 21) == 0xa179cceb478fe12d019fdde7e05a924c458000000000
    ensures SineSum(z + 22) == 0x41aecd42414f7d26e1bda745512c8ec05a7e3b5558101cd
    ensures Odd(z + 22) == 0x4e0ea0cebbd7cd1981890784d6b3c8385e98a0000000000
  {
    hide SineSum, Odd;
    FirstTerms(z);
    NextSine(z, 0x1, 0x1, 6, 0x5, 0x6);
    NextSine(z + 1, 0x5, 0x6, 20, 0x65, 0x78);
    NextSine(z + 2, 0x65, 0x78, 42, 0x1091, 0x13b0);
    NextSine(z + 3, 0x1091, 0x13b0, 72, 0x4a8c9, 0x58980);
    NextSine(z + 4, 0x4a8c9, 0x58980, 110, 0x200865d, 0x2611500);
    NextSine(z + 5, 0x200865d, 0x2611500, 156, 0x13851e0ad, 0x17328cc00);
    NextSine(z + 6, 0x13851e0ad, 0x17328cc00, 210, 0x100332a4de9, 0x13077775800);
    NextSine(z + 7, 0x100332a4de9, 0x13077775800, 272, 0x110365cf2c791, 0x1437eeecd8000);
    NextSine(z + 8, 0x110365cf2c791, 0x1437eeecd8000, 342, 0x16ba8a02c569bb5, 0x1b02b9306890000);
    NextSine(z + 9, 0x16ba8a02c569bb5, 0x1b02b9306890000, 420, 0x254a0a6c8be1774f5, 0x2c5077d36b8c40000);
    NextSine(z + 10, 0x254a0a6c8be1774f5, 0x2c5077d36b8c40000, 506, 0x49b4589a8c7ba5d2c41, 0x57970cd7e2933680000);
    NextSine(z + 11, 0x49b4589a8c7ba5d2c41, 0x57970cd7e2933680000, 600,
             0xacbeafaa3941cca5fb859, 0xcd4a0619fb0907bc00000);
    NextSine(z + 12, 0xacbeafaa3941cca5fb859, 0xcd4a0619fb0907bc00000, 702,
             0x1d9b2e5b4c9026f2f27b840d, 0x232f0fcbb3e62c3358800000);
    NextSine(z + 13, 0x1d9b2e5b4c9026f2f27b840d, 0x232f0fcbb3e62c3358800000, 812,
             0x5de8370996d93b8a991fc6d93d, 0x6f99461a1e9e1432dcb6000000);
    NextSine(z + 14, 0x5de8370996d93b8a991fc6d93d, 0x6f99461a1e9e1432dcb6000000, 930,
             0x1552597f0d6012a4d804570612f99, 0x1956ad0aae33a4560c5cd2c000000);
    NextSine(z + 15, 0x1552597f0d6012a4d804570612f99, 0x1956ad0aae33a4560c5cd2c000000, 1056,
             0x57f3b12c172c4ce7fb11e6f90e45721, 0x688589cc0e9505e2f2fee5580000000);
    NextSine(z + 16, 0x57f3b12c172c4ce7fb11e6f90e45721, 0x688589cc0e9505e2f2fee5580000000, 1190,
             0x198d6c992f3b7ed7e591537a9b856d0365, 0x1e5dcbe8a8bc8b95cf58cde17100000000);
    NextSine(z + 17, 0x198d6c992f3b7ed7e591537a9b856d0365, 0x1e5dcbe8a8bc8b95cf58cde17100000000, 1332,
             0x84f3d90d09c18ffb56782659f1323b35a985, 0x9e0008f68df506477ada0f38fff400000000);
    NextSine(z + 18, 0x84f3d90d09c18ffb56782659f1323b35a985, 0x9e0008f68df506477ada0f38fff400000000, 1482,
             0x301aba6857a7a8b8502938e04ae4ccac4a75bf1, 0x392ac33e351cc7659cd325c1ff9ba8800000000);
    NextSine(z + 19, 0x301aba6857a7a8b8502938e04ae4ccac4a75bf1, 0x392ac33e351cc7659cd325c1ff9ba8800000000, 1640,
             0x1342b3a2c718a10dcc188145cdfc9bf2fbd024ffe9, 0x16e39f2c684405d62f4a8a9e2cd7d2f74000000000);
    NextSine(z + 20, 0x1342b3a2c718a10dcc188145cdfc9bf2fbd024ffe9,
             0x16e39f2c684405d62f4a8a9e2cd7d2f74000000000, 1806,
             0x87e08f46588fc02f55d4dffa732c142c2c7665055dbd,
             0xa179cceb478fe12d019fdde7e05a924c458000000000);
    NextSine(z + 21, 0x87e08f46588fc02f55d4dffa732c142c2c7665055dbd,
             0xa179cceb478fe12d019fdde7e05a924c458000000000, 1980,
             0x41aecd42414f7d26e1bda745512c8ec05a7e3b5558101cd,
             0x4e0ea0cebbd7cd1981890784d6b3c8385e98a0000000000);
  }

  /** One more term. */
  lemma NextCosine(k: nat, v: int, d: nat, f: int, w: int, e: nat)
    requires CosineSum(k) == v && Even(k) == d && f == EvenFactor(k)
    requires w == f * v + (if k % 2 == 1 then 1 else -1) && e == f * d
    ensures CosineSum(k + 1) == w && Even(k + 1) == e
  {
    hide EvenFactor;
  }

  /** Where the series stands after 22 and after 23 terms. */
  lemma CosineSums(z: nat)
    requires z == 0
    ensures CosineSum(z + 21) == 0x2076a9ed893c4b4544af54330acb2629e3d983abfe9
    ensures Even(z + 21) == 0x3c1581d491b28f523c23abdf35b689c908000000000
    ensures CosineSum(z + 22) == 0xefecffdf8a419c4bef9fca493bc5660d97f3912325605
    ensures Even(z + 22) == 0x1bc0ef38704cbab3bc477a23da8f91251bf20000000000
  {
    hide CosineSum, Even;
    FirstTerms(z);
    NextCosine(z, 0x1, 0x1, 2, 0x1, 0x2);
    NextCosine(z + 1, 0x1, 0x2, 12, 0xd, 0x18);
    NextCosine(z + 2, 0xd, 0x18, 30, 0x185, 0x2d0);
    NextCosine(z + 3, 0x185, 0x2d0, 56, 0x5519, 0x9d80);
    NextCosine(z + 4, 0x5519, 0x9d80, 90, 0x1deac9, 0x375f00);
    NextCosine(z + 5, 0x1deac9, 0x375f00, 132, 0xf6d0fa5, 0x1c8cfc00);
    NextCosine(z + 6, 0xf6d0fa5, 0x1c8cfc00, 182, 0xaf7891f4d, 0x144c3b2800);
    NextCosine(z + 7, 0xaf7891f4d, 0x144c3b2800, 240, 0xa48108d5831, 0x130777758000);
    NextCosine(z + 8, 0xa48108d5831, 0x130777758000, 306, 0xc4a23c8f36a91, 0x16beecca730000);
    NextCosine(z + 9, 0xc4a23c8f36a91, 0x16beecca730000, 380, 0x123e0d1e49522f3d, 0x21c3677c82b40000);
    NextCosine(z + 10, 0x123e0d1e49522f3d, 0x21c3677c82b40000, 462, 0x20ebfbaca852514015, 0x3ceea4c2b3e0d80000);
    NextCosine(z + 11, 0x20ebfbaca852514015, 0x3ceea4c2b3e0d80000, 552, 0x46fcd6ac4af17f322d49, 0x83629343d3dcd1c00000);
    NextCosine(z + 12, 0x46fcd6ac4af17f322d49, 0x83629343d3dcd1c00000, 650,
               0xb43df91176492cf566fb59, 0x14d9849ea37eeac91800000);
    NextCosine(z + 13, 0xb43df91176492cf566fb59, 0x14d9849ea37eeac91800000, 756,
               0x214470387915018c4b41e42d5, 0x3d925ba47ad2cd59dae000000);
    NextCosine(z + 14, 0x214470387915018c4b41e42d5, 0x3d925ba47ad2cd59dae000000, 870,
               0x710e955feb7d6342c7c1ed71fdd, 0xd13f6370f96865df5dd54000000);
    NextCosine(z + 15, 0x710e955feb7d6342c7c1ed71fdd, 0xd13f6370f96865df5dd54000000, 992,
               0x1b61882d3b085e0a2c60f7819b7861, 0x32ad5a155c6748ac18b9a580000000);
    NextCosine(z + 16, 0x1b61882d3b085e0a2c60f7819b7861, 0x32ad5a155c6748ac18b9a580000000, 1122,
               0x780176d63cbaac289680fcc60b659921, 0xde1bc4d19efcac82445da75b00000000);
    NextCosine(z + 17, 0x780176d63cbaac289680fcc60b659921, 0xde1bc4d19efcac82445da75b00000000, 1260,
               0x24ea734e672e6c757c4c2dc1ec0180dae6d, 0x44530acb7ba83a111287cf3b3e400000000);
    NextCosine(z + 18, 0x24ea734e672e6c757c4c2dc1ec0180dae6d, 0x44530acb7ba83a111287cf3b3e400000000, 1406,
               0xcabfa5489ab0f7ad40aa634f0e3041b23faa5, 0x1774015499125eee9c3c5e4275fe3800000000);
    NextCosine(z + 19, 0xcabfa5489ab0f7ad40aa634f0e3041b23faa5, 0x1774015499125eee9c3c5e4275fe3800000000, 1560,
               0x4d37fd7326ea66547c20e4d29be76105633f5d79, 0x8eeae81b84c7f27e080fde64ff05254000000000);
    NextCosine(z + 20, 0x4d37fd7326ea66547c20e4d29be76105633f5d79,
               0x8eeae81b84c7f27e080fde64ff05254000000000, 1722,
               0x2076a9ed893c4b4544af54330acb2629e3d983abfe9,
               0x3c1581d491b28f523c23abdf35b689c908000000000);
    NextCosine(z + 21, 0x2076a9ed893c4b4544af54330acb2629e3d983abfe9,
               0x3c1581d491b28f523c23abdf35b689c908000000000, 1892,
               0xefecffdf8a419c4bef9fca493bc5660d97f3912325605,
               0x1bc0ef38704cbab3bc477a23da8f91251bf20000000000);
  }

  lemma SineOfOne(x: real)
    requires IsSineOfOne(x)
    ensures SIN as real <= SCALE as real * x <= (SIN + 1) as real
  {
    hide SineSum, Odd;
    assert SineBracket(x, 10) && SineBracket(x, 11);
    SineSums(0);
  }

  lemma CosineOfOne(x: real)
    requires IsCosineOfOne(x)
    ensures COS as real <= SCALE as real * x <= (COS + 1) as real
  {
    hide CosineSum, Even;
    assert CosineBracket(x, 10) && CosineBracket(x, 11);
    CosineSums(0);
  }

  /** A product with a factor of at most 1. */
  lemma Damped(u: real, v: real, e: real)
    requires -1.0 <= u <= 1.0 && -e <= v <= e
    ensures -e <= u * v <= e
  {
    var w := if v >= 0.0 then v else -v;
    Product(1.0 - u, w);
    Product(1.0 + u, w);
    assert (1.0 - u) * w == w - u * w && (1.0 + u) * w == w + u * w;
    assert u * -w == -(u * w);
  }

  lemma Product(a: real, b: real)
    requires a >= 0.0 && b >= 0.0
    ensures a * b >= 0.0
  {
  }

  lemma Cancel(s: real, x: real, y: real)
    requires s > 0.0 && s * x == s * y
    ensures x == y
  {
  }

  /** The recurrence on approximations, with the error of cos(1) and of the rounding set apart. */
  lemma Rearranged(s: real, c: real, k: real, a0: real, a1: real, a2: real, q: real, r: real)
    requires s > 0.0 && q * s == a1 && r * s == 2.0 * (k * a1) - s * (a0 + a2)
    ensures 2.0 * (c * a1) - a0 - a2 == 2.0 * (q * (s * c - k)) + r
  {
    var (x, y) := (2.0 * (c * a1) - a0 - a2, 2.0 * (q * (s * c - k)) + r);
    var u := s * c - k;
    calc {
      s * y;
      2.0 * ((q * s) * u) + r * s;
      2.0 * (a1 * u) + 2.0 * (k * a1) - s * (a0 + a2);
      { assert a1 * u == a1 * (s * c) - a1 * k; }
      2.0 * (a1 * (s * c)) - s * (a0 + a2);
      { assert a1 * (s * c) == s * (c * a1); }
      s * x;
    }
    Cancel(s, x, y);
  }

  /** The approximation a of x is off by at most m. */
  predicate Near(x: real, a: real, m: real) { -m <= x - a <= m }

  predicate NearScaled(s: real, y: real, a: real, m: real) { Near(s * y, a, m) }

  /** k is s times c, rounded down. */
  predicate RoundedDown(s: real, c: real, k: real) { k <= s * c <= k + 1.0 && -1.0 <= c <= 1.0 }

  /** The approximations follow the recurrence of the sine, up to a rounding error. */
  predicate Recurs(s: real, k: real, a0: real, a1: real, a2: real)
  {
    s > 0.0 && -s <= 2.0 * (k * a1) - s * (a0 + a2) <= s && -s <= a1 <= s
  }

  /** One more step of the recurrence makes the error at most three times as large. */
  lemma ErrorStep(s: real, c: real, k: real, x0: real, x1: real, a0: real, a1: real, a2: real, m: real)
    requires RoundedDown(s, c, k) && Recurs(s, k, a0, a1, a2) && m >= 4.0
    requires Near(x0, a0, m) && Near(x1, a1, 3.0 * m)
    ensures Near(2.0 * (c * x1) - x0, a2, 9.0 * m)
  {
    var t := 2.0 * (k * a1) - s * (a0 + a2);
    var (q, r) := (a1 / s, t / s);
    Quotient(a1, s);
    Quotient(t, s);
    Damped(c, x1 - a1, 3.0 * m);
    Damped(q, s * c - k, 1.0);
    Rearranged(s, c, k, a0, a1, a2, q, r);
    Together(c, x0, x1, a0, a1, a2, q * (s * c - k), r, m);
  }

  lemma Together(c: real, x0: real, x1: real, a0: real, a1: real, a2: real, p: real, r: real, m: real)
    requires -3.0 * m <= c * (x1 - a1) <= 3.0 * m && -1.0 <= p <= 1.0 && -1.0 <= r <= 1.0 && m >= 4.0
    requires -m <= x0 - a0 <= m && 2.0 * (c * a1) - a0 - a2 == 2.0 * p + r
    ensures -9.0 * m <= 2.0 * (c * x1) - x0 - a2 <= 9.0 * m
  {
    assert c * (x1 - a1) == c * x1 - c * a1;
  }

  lemma Quotient(a: real, s: real)
    requires s > 0.0 && -s <= a <= s
    ensures a / s * s == a && -1.0 <= a / s <= 1.0
  {
    var q := a / s;
    assert q * s == a;
  }

  // ----- the constants -----

  lemma MarginEight(n: nat)
    ensures Margin(n + 8) == 6561 * Margin(n)
  {
    assert Margin(n + 4) == 81 * Margin(n) by {
      assert Margin(n + 2) == 9 * Margin(n);
    }
    assert Margin(n + 6) == 9 * Margin(n + 4);
  }

  lemma MarginTop(z: nat)
    requires z == 0
    ensures Margin(z + 64) == MARGIN
  {
    hide Margin;
    MarginZero(z);
    MarginEight(z);
    MarginEight(z + 8);
    MarginEight(z + 16);
    MarginEight(z + 24);
    MarginEight(z + 32);
    MarginEight(z + 40);
    MarginEight(z + 48);
    MarginEight(z + 56);
  }

  lemma MarginZero(z: nat)
    requires z == 0
    ensures Margin(z) == 4
  {
  }

  lemma {:induction false} MarginMonotone(n: nat, k: nat)
    ensures 4 <= Margin(n) <= Margin(n + k)
    decreases n + k
  {
    if k > 0 {
      MarginMonotone(n, k - 1);
    } else if n > 0 {
      MarginMonotone(n - 1, 0);
    }
  }

  /** The approximations are as close to the sine as their margins say. */
  ghost predicate Close(n: nat, s: real, c: real)
    requires n <= 64
  {
    NearScaled(SCALE as real, Sine(n, s, c), Approximation(n) as real, Margin(n) as real)
  }

  lemma {:induction false} AllClose(n: nat, s: real, c: real)
    requires n < 64 && IsSineOfOne(s) && IsCosineOfOne(c)
    ensures Close(n, s, c) && Close(n + 1, s, c)
  {
    if n == 0 {
      SineOfOne(s);
      FirstTwo(n, s, c);
    } else {
      AllClose(n - 1, s, c);
      CosineOfOne(c);
      NextClose(n, s, c);
    }
  }

  lemma FirstTwo(z: nat, s: real, c: real)
    requires z == 0 && SIN as real <= SCALE as real * s <= (SIN + 1) as real
    ensures Close(z, s, c) && Close(z + 1, s, c)
  {
  }

  lemma NextClose(n: nat, s: real, c: real)
    requires 0 < n < 64 && Close(n - 1, s, c) && Close(n, s, c)
    requires COS as real <= SCALE as real * c <= (COS + 1) as real
    ensures Close(n + 1, s, c)
  {
    hide ApproximationRow, Sine, Margin, Approximation, NearScaled, RoundedDown, Recurs;
    MarginReal(n);
    FollowsReal(n);
    CosineSmall(c);
    SineStep(n, s, c);
    var (a0, a1, a2) := (Approximation(n - 1) as real, Approximation(n) as real, Approximation(n + 1) as real);
    NextError(SCALE as real, c, COS as real, Sine(n - 1, s, c), Sine(n, s, c), Sine(n + 1, s, c),
              a0, a1, a2, Margin(n - 1) as real);
  }

  lemma NextError(s: real, c: real, k: real, y0: real, y1: real, y2: real, a0: real, a1: real, a2: real, m: real)
    requires RoundedDown(s, c, k) && Recurs(s, k, a0, a1, a2) && m >= 4.0
    requires NearScaled(s, y0, a0, m) && NearScaled(s, y1, a1, 3.0 * m) && y2 == 2.0 * c * y1 - y0
    ensures NearScaled(s, y2, a2, 9.0 * m)
  {
    hide RoundedDown, Recurs;
    ErrorStep(s, c, k, s * y0, s * y1, a0, a1, a2, m);
    Scaled(s, c, y0, y1, y2);
  }

  lemma Scaled(s: real, c: real, y0: real, y1: real, y2: real)
    requires y2 == 2.0 * c * y1 - y0
    ensures s * y2 == 2.0 * (c * (s * y1)) - s * y0
  {
    assert s * (2.0 * c * y1) == 2.0 * (c * (s * y1));
  }

  lemma FollowsReal(n: nat)
    requires 0 < n < 64
    ensures var (s, k) := (SCALE as real, COS as real);
            var (a0, a1, a2) := (Approximation(n - 1) as real, Approximation(n) as real, Approximation(n + 1) as real);
            Recurs(s, k, a0, a1, a2)
  {
    hide ApproximationRow, Approximation, Additive;
    FollowsAll(n);
    ClearAll(n);
  }

  lemma CosineSmall(c: real)
    requires COS as real <= SCALE as real * c <= (COS + 1) as real
    ensures RoundedDown(SCALE as real, c, COS as real)
  {
  }

  lemma MarginStep(n: nat)
    requires n > 0
    ensures Margin(n) == 3 * Margin(n - 1) && Margin(n + 1) == 9 * Margin(n - 1)
  {
  }

  lemma MarginReal(n: nat)
    requires n > 0
    ensures var m := Margin(n - 1) as real;
            m >= 4.0 && Margin(n) as real == 3.0 * m && Margin(n + 1) as real == 9.0 * m
  {
    hide Margin;
    MarginMonotone(n - 1, 0);
    MarginStep(n);
  }

  lemma SineStep(n: nat, s: real, c: real)
    requires n > 0
    ensures Sine(n + 1, s, c) == 2.0 * c * Sine(n, s, c) - Sine(n - 1, s, c)
  {
  }

  /** Every additive constant is the whole part of 2^32 times the absolute value of the sine of the
      number of its step, counted from 1. */
  lemma AdditiveCorrect(i: nat, s: real, c: real)
    requires i < 64 && IsSineOfOne(s) && IsCosineOfOne(c)
    ensures var x := Sine(i + 1, s, c);
            Additive(i) as real <= 4294967296.0 * (if x < 0.0 then -x else x) < Additive(i) as real + 1.0
  {
    hide ApproximationRow, Sine, Margin, Approximation, AdditiveRow;
    AllClose(i, s, c);
    ClearAll(i + 1);
    MarginMonotone(i + 1, 63 - i);
    MarginTop(0);
  }
}
