/** Certificate: powers of 16807 modulo 2^31 - 1.

    2^31 - 2 = 2 * 3 * 3 * 7 * 11 * 31 * 151 * 331.  Each lemma raises a known power to one of
    these primes by repeated multiplication. */
module LehmerPowers {
  import opened Lehmer

  /** 16807^k modulo 2^31 - 1. */
  function Residue(k: nat): nat {
    Power(A, k) % M
  }

  lemma {:induction false} PowerOfSum(a: nat, b: nat)
    ensures Power(A, a + b) == Power(A, a) * Power(A, b)
  {
    if a > 0 {
      PowerOfSum(a - 1, b);
      var x, y := Power(A, a - 1), Power(A, b);
      assert Power(A, a) == A * x && Power(A, a + b) == A * Power(A, a - 1 + b);
      hide Power;
      Reassociate(A, x, y);
    }
  }

  lemma Reassociate(x: nat, y: nat, z: nat)
    ensures x * (y * z) == (x * y) * z
  {
  }

  lemma Multiply(a: nat, x: nat, b: nat, y: nat)
    requires Residue(a) == x && Residue(b) == y
    ensures Residue(a + b) == x * y % M
  {
    PowerOfSum(a, b);
    MulRemainder(Power(A, a), Power(A, b));
    MulRemainder(y, Power(A, a));
    assert Power(A, a) * y == y * Power(A, a) && x * y == y * x;
  }

  lemma To1()
    ensures Residue(1) == 16_807
  {
  }

  lemma To3()
    ensures Residue(3) == 1_622_650_073
  {
    hide Residue, Power;
    To1();
    Multiply(1, 16_807, 1, 16_807);
    Multiply(2, 282_475_249, 1, 16_807);
  }

  lemma To93()
    ensures Residue(93) == 753_799_505
  {
    hide Residue, Power;
    To3();
    Multiply(3, 1_622_650_073, 3, 1_622_650_073);
    Multiply(6, 470_211_272, 3, 1_622_650_073);
    Multiply(9, 1_458_777_923, 9, 1_458_777_923);
    Multiply(18, 16_531_729, 18, 16_531_729);
    Multiply(36, 704_877_633, 36, 704_877_633);
    Multiply(72, 824_938_981, 18, 16_531_729);
    Multiply(90, 1_908_194_298, 3, 1_622_650_073);
  }

  lemma To14043()
    ensures Residue(14_043) == 1_815_234_683
  {
    hide Residue, Power;
    To93();
    Multiply(93, 753_799_505, 93, 753_799_505);
    Multiply(186, 462_242_385, 93, 753_799_505);
    Multiply(279, 907_225_550, 279, 907_225_550);
    Multiply(558, 977_260_520, 279, 907_225_550);
    Multiply(837, 242_817_253, 837, 242_817_253);
    Multiply(1_674, 411_610_332, 1_674, 411_610_332);
    Multiply(3_348, 1_663_840_210, 3_348, 1_663_840_210);
    Multiply(6_696, 838_152_574, 279, 907_225_550);
    Multiply(6_975, 1_303_375_099, 6_975, 1_303_375_099);
    Multiply(13_950, 128_997_635, 93, 753_799_505);
  }

  lemma To4648233()
    ensures Residue(4_648_233) == 1_689_239_032
  {
    hide Residue, Power;
    To14043();
    Multiply(14_043, 1_815_234_683, 14_043, 1_815_234_683);
    Multiply(28_086, 134_633_770, 28_086, 134_633_770);
    Multiply(56_172, 1_837_565_529, 14_043, 1_815_234_683);
    Multiply(70_215, 1_067_452_642, 70_215, 1_067_452_642);
    Multiply(140_430, 1_987_000_408, 140_430, 1_987_000_408);
    Multiply(280_860, 1_984_696_006, 280_860, 1_984_696_006);
    Multiply(561_720, 1_002_350_995, 14_043, 1_815_234_683);
    Multiply(575_763, 696_461_572, 575_763, 696_461_572);
    Multiply(1_151_526, 1_444_992_188, 1_151_526, 1_444_992_188);
    Multiply(2_303_052, 1_773_932_632, 14_043, 1_815_234_683);
    Multiply(2_317_095, 1_552_208_232, 2_317_095, 1_552_208_232);
    Multiply(4_634_190, 560_623_895, 14_043, 1_815_234_683);
  }

  lemma To6()
    ensures Residue(6) == 470_211_272
  {
    hide Residue, Power;
    To3();
    Multiply(3, 1_622_650_073, 3, 1_622_650_073);
  }

  lemma To18()
    ensures Residue(18) == 16_531_729
  {
    hide Residue, Power;
    To6();
    Multiply(6, 470_211_272, 6, 470_211_272);
    Multiply(12, 1_115_438_165, 6, 470_211_272);
  }

  lemma To126()
    ensures Residue(126) == 1_524_325_968
  {
    hide Residue, Power;
    To18();
    Multiply(18, 16_531_729, 18, 16_531_729);
    Multiply(36, 704_877_633, 18, 16_531_729);
    Multiply(54, 590_357_944, 54, 590_357_944);
    Multiply(108, 70_982_397, 18, 16_531_729);
  }

  lemma To1386()
    ensures Residue(1_386) == 1_179_617_774
  {
    hide Residue, Power;
    To126();
    Multiply(126, 1_524_325_968, 126, 1_524_325_968);
    Multiply(252, 1_887_638, 252, 1_887_638);
    Multiply(504, 501_848_671, 126, 1_524_325_968);
    Multiply(630, 707_765_235, 630, 707_765_235);
    Multiply(1_260, 1_713_417_723, 126, 1_524_325_968);
  }

  lemma To42966()
    ensures Residue(42_966) == 1_730_649_443
  {
    hide Residue, Power;
    To1386();
    Multiply(1_386, 1_179_617_774, 1_386, 1_179_617_774);
    Multiply(2_772, 970_181_005, 1_386, 1_179_617_774);
    Multiply(4_158, 2_047_383_381, 4_158, 2_047_383_381);
    Multiply(8_316, 1_193_132_871, 8_316, 1_193_132_871);
    Multiply(16_632, 1_552_828_735, 16_632, 1_552_828_735);
    Multiply(33_264, 1_640_375_542, 8_316, 1_193_132_871);
    Multiply(41_580, 743_196_361, 1_386, 1_179_617_774);
  }

  lemma To14221746()
    ensures Residue(14_221_746) == 1_013_763_951
  {
    hide Residue, Power;
    To42966();
    Multiply(42_966, 1_730_649_443, 42_966, 1_730_649_443);
    Multiply(85_932, 1_376_674_263, 85_932, 1_376_674_263);
    Multiply(171_864, 1_233_326_474, 42_966, 1_730_649_443);
    Multiply(214_830, 1_018_536_654, 214_830, 1_018_536_654);
    Multiply(429_660, 1_268_820_004, 429_660, 1_268_820_004);
    Multiply(859_320, 1_612_600_255, 859_320, 1_612_600_255);
    Multiply(1_718_640, 1_146_547_535, 42_966, 1_730_649_443);
    Multiply(1_761_606, 1_682_133_510, 1_761_606, 1_682_133_510);
    Multiply(3_523_212, 133_508_022, 3_523_212, 133_508_022);
    Multiply(7_046_424, 642_862_021, 42_966, 1_730_649_443);
    Multiply(7_089_390, 432_825_610, 7_089_390, 432_825_610);
    Multiply(14_178_780, 688_128_574, 42_966, 1_730_649_443);
  }

  lemma To6487866()
    ensures Residue(6_487_866) == 759_513_457
  {
    hide Residue, Power;
    To42966();
    Multiply(42_966, 1_730_649_443, 42_966, 1_730_649_443);
    Multiply(85_932, 1_376_674_263, 42_966, 1_730_649_443);
    Multiply(128_898, 947_038_503, 128_898, 947_038_503);
    Multiply(257_796, 1_063_599_785, 128_898, 947_038_503);
    Multiply(386_694, 2_046_898_715, 386_694, 2_046_898_715);
    Multiply(773_388, 508_483_168, 773_388, 508_483_168);
    Multiply(1_546_776, 1_563_543_819, 1_546_776, 1_563_543_819);
    Multiply(3_093_552, 1_441_968_634, 128_898, 947_038_503);
    Multiply(3_222_450, 1_722_962_606, 3_222_450, 1_722_962_606);
    Multiply(6_444_900, 252_779_128, 42_966, 1_730_649_443);
  }

  lemma To209286()
    ensures Residue(209_286) == 2_046_615_961
  {
    hide Residue, Power;
    To1386();
    Multiply(1_386, 1_179_617_774, 1_386, 1_179_617_774);
    Multiply(2_772, 970_181_005, 1_386, 1_179_617_774);
    Multiply(4_158, 2_047_383_381, 4_158, 2_047_383_381);
    Multiply(8_316, 1_193_132_871, 4_158, 2_047_383_381);
    Multiply(12_474, 1_595_268_003, 12_474, 1_595_268_003);
    Multiply(24_948, 97_566_603, 24_948, 97_566_603);
    Multiply(49_896, 1_064_589_535, 49_896, 1_064_589_535);
    Multiply(99_792, 174_523_262, 4_158, 2_047_383_381);
    Multiply(103_950, 1_763_597_542, 103_950, 1_763_597_542);
    Multiply(207_900, 1_777_464_897, 1_386, 1_179_617_774);
  }

  lemma To69273666()
    ensures Residue(69_273_666) == 16_384
  {
    hide Residue, Power;
    To209286();
    Multiply(209_286, 2_046_615_961, 209_286, 2_046_615_961);
    Multiply(418_572, 38_296_465, 418_572, 38_296_465);
    Multiply(837_144, 1_717_228_516, 209_286, 2_046_615_961);
    Multiply(1_046_430, 981_473_993, 1_046_430, 981_473_993);
    Multiply(2_092_860, 2_055_866_956, 2_092_860, 2_055_866_956);
    Multiply(4_185_720, 2_141_830_927, 4_185_720, 2_141_830_927);
    Multiply(8_371_440, 834_214_687, 209_286, 2_046_615_961);
    Multiply(8_580_726, 1_902_029_882, 8_580_726, 1_902_029_882);
    Multiply(17_161_452, 115_305_281, 17_161_452, 115_305_281);
    Multiply(34_322_904, 344_710_791, 209_286, 2_046_615_961);
    Multiply(34_532_190, 631_600_543, 34_532_190, 631_600_543);
    Multiply(69_064_380, 1_444_099_746, 209_286, 2_046_615_961);
  }

  lemma To32537631()
    ensures Residue(32_537_631) == 1_343_336_283
  {
    hide Residue, Power;
    To4648233();
    Multiply(4_648_233, 1_689_239_032, 4_648_233, 1_689_239_032);
    Multiply(9_296_466, 1_429_973_598, 4_648_233, 1_689_239_032);
    Multiply(13_944_699, 266_474_556, 13_944_699, 266_474_556);
    Multiply(27_889_398, 1_166_146_077, 4_648_233, 1_689_239_032);
  }

  lemma To357913941()
    ensures Residue(357_913_941) == 634_005_912
  {
    hide Residue, Power;
    To32537631();
    Multiply(32_537_631, 1_343_336_283, 32_537_631, 1_343_336_283);
    Multiply(65_075_262, 1_414_113_276, 65_075_262, 1_414_113_276);
    Multiply(130_150_524, 1_400_084_205, 32_537_631, 1_343_336_283);
    Multiply(162_688_155, 2_016_636_736, 162_688_155, 2_016_636_736);
    Multiply(325_376_310, 1_958_286_659, 32_537_631, 1_343_336_283);
  }

  lemma To1073741823()
    ensures Residue(1_073_741_823) == 2_147_483_646
  {
    hide Residue, Power;
    To357913941();
    Multiply(357_913_941, 634_005_912, 357_913_941, 634_005_912);
    Multiply(715_827_882, 634_005_911, 357_913_941, 634_005_912);
  }

  lemma To715827882()
    ensures Residue(715_827_882) == 634_005_911
  {
    hide Residue, Power;
    To357913941();
    Multiply(357_913_941, 634_005_912, 357_913_941, 634_005_912);
  }

  lemma To9296466()
    ensures Residue(9_296_466) == 1_429_973_598
  {
    hide Residue, Power;
    To4648233();
    Multiply(4_648_233, 1_689_239_032, 4_648_233, 1_689_239_032);
  }

  lemma To27889398()
    ensures Residue(27_889_398) == 1_166_146_077
  {
    hide Residue, Power;
    To9296466();
    Multiply(9_296_466, 1_429_973_598, 9_296_466, 1_429_973_598);
    Multiply(18_592_932, 494_294_169, 9_296_466, 1_429_973_598);
  }

  lemma To306783378()
    ensures Residue(306_783_378) == 1_600_955_193
  {
    hide Residue, Power;
    To27889398();
    Multiply(27_889_398, 1_166_146_077, 27_889_398, 1_166_146_077);
    Multiply(55_778_796, 1_297_435_884, 55_778_796, 1_297_435_884);
    Multiply(111_557_592, 1_385_026_292, 27_889_398, 1_166_146_077);
    Multiply(139_446_990, 400_258_458, 139_446_990, 400_258_458);
    Multiply(278_893_980, 469_006_124, 27_889_398, 1_166_146_077);
  }

  lemma To195225786()
    ensures Residue(195_225_786) == 298_192_073
  {
    hide Residue, Power;
    To27889398();
    Multiply(27_889_398, 1_166_146_077, 27_889_398, 1_166_146_077);
    Multiply(55_778_796, 1_297_435_884, 27_889_398, 1_166_146_077);
    Multiply(83_668_194, 414_363_975, 83_668_194, 414_363_975);
    Multiply(167_336_388, 1_447_247_265, 27_889_398, 1_166_146_077);
  }

  lemma To2147483646()
    ensures Residue(2_147_483_646) == 1
  {
    hide Residue, Power;
    To1073741823();
    Multiply(1_073_741_823, 2_147_483_646, 1_073_741_823, 2_147_483_646);
  }
}
