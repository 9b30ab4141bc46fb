/** Certificates for primes: numbers of prime order, with every step of their powers worked out. */
module PrimeCertificates {
  import opened Primes
  import opened PrimeTables
  import opened LargePrimes

  lemma Order71Of2131()
    ensures HasOrder(2131, 71, 1247, 183)
  {
    hide Leaves, HasOrder;
    Start(2131, 1247);
    Square(2131, 1247, 1, 1247, 729, 1510);
    Square(2131, 1247, 2, 1510, 1069, 2061);
    Square(2131, 1247, 4, 2061, 1993, 638);
    SquareTimes(2131, 1247, 8, 638, 191, 23, 13, 978);
    SquareTimes(2131, 1247, 17, 978, 448, 1796, 1050, 2062);
    SquareTimes(2131, 1247, 35, 2062, 1995, 499, 292, 1);
    Ordered(2131, 71, 1247, 183, 107);
  }

  lemma Order73Of15331()
    ensures HasOrder(15331, 73, 7853, 6453)
  {
    hide Leaves, HasOrder;
    Start(15331, 7853);
    Square(15331, 7853, 1, 7853, 4022, 8327);
    Square(15331, 7853, 2, 8327, 4522, 12147);
    SquareTimes(15331, 7853, 4, 12147, 9624, 4065, 2082, 3303);
    Square(15331, 7853, 9, 3303, 711, 9468);
    Square(15331, 7853, 18, 9468, 5847, 2667);
    SquareTimes(15331, 7853, 36, 2667, 463, 14636, 7497, 1);
    Ordered(15331, 73, 7853, 6453, 3305);
  }

  lemma Order2Of15331()
    ensures HasOrder(15331, 2, 15330, 7665)
  {
    hide Leaves, HasOrder;
    Start(15331, 15330);
    Square(15331, 15330, 1, 15330, 15329, 1);
    Ordered(15331, 2, 15330, 7665, 7664);
  }

  lemma Order2131Of5594472617641()
    ensures HasOrder(5594472617641, 2131, 1346892610175, 1933328135809)
  {
    hide Leaves, HasOrder;
    Start(5594472617641, 1346892610175);
    Square(5594472617641, 1346892610175, 1, 1346892610175, 324270012087, 1186914103858);
    Square(5594472617641, 1346892610175, 2, 1186914103858, 251813742996, 229060691728);
    Square(5594472617641, 1346892610175, 4, 229060691728, 9378685728, 153399898336);
    Square(5594472617641, 1346892610175, 8, 153399898336, 4206210382, 3358845020034);
    SquareTimes(5594472617641, 1346892610175, 16, 3358845020034, 2016604716775, 3780187733381, 910095959199,
      525804122116);
    Square(5594472617641, 1346892610175, 33, 525804122116, 49418415949, 303667161147);
    SquareTimes(5594472617641, 1346892610175, 66, 303667161147, 16483009402, 3269912294927, 787245019677,
      324698760268);
    Square(5594472617641, 1346892610175, 133, 324698760268, 18845258905, 3198420088719);
    Square(5594472617641, 1346892610175, 266, 3198420088719, 1828571120656, 2146665968465);
    SquareTimes(5594472617641, 1346892610175, 532, 2146665968465, 823701373679, 5333745984986, 1284121586201,
      4998406060709);
    SquareTimes(5594472617641, 1346892610175, 1065, 4998406060709, 4465847784999, 2846091015322, 685208279389, 1);
    Ordered(5594472617641, 2131, 1346892610175, 1933328135809, 465456810165);
  }

  lemma Order15331Of5594472617641()
    ensures HasOrder(5594472617641, 15331, 1852426820963, 3161697676777)
  {
    hide Leaves, HasOrder;
    Start(5594472617641, 1852426820963);
    SquareTimes(5594472617641, 1852426820963, 1, 1852426820963, 613370618027, 5497823433062, 1820424601276,
      4310060168790);
    SquareTimes(5594472617641, 1852426820963, 3, 4310060168790, 3320530803924, 3808895640816, 1261191344658,
      1597705314030);
    Square(5594472617641, 1852426820963, 7, 1597705314030, 456282914394, 5035417616346);
    SquareTimes(5594472617641, 1852426820963, 14, 5035417616346, 4532228916637, 1201481798399, 397831441919,
      686246745158);
    SquareTimes(5594472617641, 1852426820963, 29, 686246745158, 84178550406, 869313132718, 287844641116,
      4028508040078);
    SquareTimes(5594472617641, 1852426820963, 59, 4028508040078, 2900877015252, 1621332985552, 536851444884,
      3996452127932);
    SquareTimes(5594472617641, 1852426820963, 119, 3996452127932, 2854894590151, 1016067142833, 336437436720,
      3725946430659);
    SquareTimes(5594472617641, 1852426820963, 239, 3725946430659, 2481498749384, 1367978891137, 452961514274,
      2306800797297);
    Square(5594472617641, 1852426820963, 479, 2306800797297, 951176327439, 4259618754810);
    Square(5594472617641, 1852426820963, 958, 4259618754810, 3243264053007, 2064630839613);
    Square(5594472617641, 1852426820963, 1916, 2064630839613, 761948586617, 2013119279272);
    SquareTimes(5594472617641, 1852426820963, 3832, 2013119279272, 724402371690, 2713795866694, 898584834293,
      2831819143509);
    SquareTimes(5594472617641, 1852426820963, 7665, 2831819143509, 1433414766613, 5353135213148, 1772515824603, 1);
    Ordered(5594472617641, 15331, 1852426820963, 3161697676777, 1046892884553);
  }

  lemma Order5594472617641Of18446744073709551557()
    ensures HasOrder(18446744073709551557, 5594472617641, 11493017446059487016, 1898613474652435203)
  {
    hide Leaves, HasOrder;
    Start(18446744073709551557, 11493017446059487016);
    Square(18446744073709551557, 11493017446059487016, 1, 11493017446059487016, 7160583433457109817,
      707738172700249187);
    SquareTimes(18446744073709551557, 11493017446059487016, 2, 707738172700249187, 27153481345847094,
      4218391128862535611, 2628216808592075276, 12603256085745122044);
    Square(18446744073709551557, 11493017446059487016, 5, 12603256085745122044, 8610845541531334294,
      3070276465859542178);
    Square(18446744073709551557, 11493017446059487016, 10, 3070276465859542178, 511016878596251756,
      3445201699927199592);
    Square(18446744073709551557, 11493017446059487016, 20, 3445201699927199592, 643442263076531292,
      5495123995007144820);
    SquareTimes(18446744073709551557, 11493017446059487016, 40, 5495123995007144820, 1636949458389213449,
      14240951956709542307, 8872650297145050839, 7267389047912579589);
    Square(18446744073709551557, 11493017446059487016, 81, 7267389047912579589, 2863103828116312060,
      2545514892988531501);
    SquareTimes(18446744073709551557, 11493017446059487016, 162, 2545514892988531501, 351262317324674050,
      6322864115774317151, 3939382868938148350, 6769489354311130466);
    SquareTimes(18446744073709551557, 11493017446059487016, 325, 6769489354311130466, 2484231685278449279,
      18418489063413399753, 11475413508748128177, 3742076373895185459);
    Square(18446744073709551557, 11493017446059487016, 651, 3742076373895185459, 759111501309432791,
      16893664101364135094);
    SquareTimes(18446744073709551557, 11493017446059487016, 1302, 16893664101364135094, 15471342022707834382,
      14060724226836156062, 8760361622492126895, 12570569503449865477);
    Square(18446744073709551557, 11493017446059487016, 2605, 12570569503449865477, 8566238953045055850,
      10751228489876979079);
    Square(18446744073709551557, 11493017446059487016, 5210, 10751228489876979079, 6266087585954026469,
      18149736518505526008);
    SquareTimes(18446744073709551557, 11493017446059487016, 10420, 18149736518505526008, 17857511026059881481,
      15243608239685400147, 9497342985816659988, 6969370660485990036);
    Square(18446744073709551557, 11493017446059487016, 20841, 6969370660485990036, 2633100302641934125,
      15060727138206098671);
    Square(18446744073709551557, 11493017446059487016, 41682, 15060727138206098671, 12296235098462237443,
      13582489635803617490);
    Square(18446744073709551557, 11493017446059487016, 83364, 13582489635803617490, 10000899018794368471,
      14122594575804140753);
    Square(18446744073709551557, 11493017446059487016, 166728, 14122594575804140753, 10812080264982207730,
      17095689938516471399);
    SquareTimes(18446744073709551557, 11493017446059487016, 333456, 17095689938516471399, 15843588077444428209,
      2502823356314345788, 1559353367921552899, 15896713296576974865);
    Square(18446744073709551557, 11493017446059487016, 666913, 15896713296576974865, 13699192259826767990,
      8258455027259507795);
    Square(18446744073709551557, 11493017446059487016, 1333826, 8258455027259507795, 3697242134695736976,
      3719908085082490393);
    Square(18446744073709551557, 11493017446059487016, 2667652, 3719908085082490393, 750144096224748153,
      5996784432043270228);
    SquareTimes(18446744073709551557, 11493017446059487016, 5335304, 5996784432043270228, 1949472675541102017,
      11038613309972981515, 6877472514655622781, 4584556924887289223);
    SquareTimes(18446744073709551557, 11493017446059487016, 10670609, 4584556924887289223, 1139396855810844796,
      15760358738764796357, 9819298040727612555, 14264922066832602577);
    Square(18446744073709551557, 11493017446059487016, 21341219, 14264922066832602577, 11031106668998594242,
      11038291374004706135);
    SquareTimes(18446744073709551557, 11493017446059487016, 42682438, 11038291374004706135, 6605169777959871994,
      17391818108843243567, 10835758773739679618, 9424313153928960846);
    SquareTimes(18446744073709551557, 11493017446059487016, 85364877, 9424313153928960846, 4814815995084038105,
      12727297881150956231, 7929586706726000171, 11643026781013480449);
    Square(18446744073709551557, 11493017446059487016, 170729755, 11643026781013480449, 7348726262028996072,
      11958245662470757497);
    Square(18446744073709551557, 11493017446059487016, 341459510, 11958245662470757497, 7752025980986255738,
      2803077620483620943);
    SquareTimes(18446744073709551557, 11493017446059487016, 682919020, 2803077620483620943, 425942058666836833,
      2287400308388110268, 1425136682407486996, 1611602363253227516);
    Square(18446744073709551557, 11493017446059487016, 1365838041, 1611602363253227516, 140797864754085622,
      1067009509658116802);
    SquareTimes(18446744073709551557, 11493017446059487016, 2731676082, 1067009509658116802, 61718712481270203,
      3727580736198351133, 2322423418546824699, 1006968241440882785);
    SquareTimes(18446744073709551557, 11493017446059487016, 5463352165, 1006968241440882785, 54968239122246167,
      2982683727977224206, 1858324481802518799, 3462094952625689253);
    Square(18446744073709551557, 11493017446059487016, 10926704331, 3462094952625689253, 649767862182191923,
      13006730677682223898);
    SquareTimes(18446744073709551557, 11493017446059487016, 21853408662, 13006730677682223898, 9170997453305026281,
      2482068632392844887, 1546422391963691632, 8517951063125016168);
    Square(18446744073709551557, 11493017446059487016, 43706817325, 8517951063125016168, 3933241011198245179,
      3960158840834210521);
    SquareTimes(18446744073709551557, 11493017446059487016, 87413634650, 3960158840834210521, 850169438138879680,
      2568824574167429681, 1600474616485290612, 12596247304770439012);
    Square(18446744073709551557, 11493017446059487016, 174827269301, 12596247304770439012, 8601271071411882529,
      7694063513458488491);
    SquareTimes(18446744073709551557, 11493017446059487016, 349654538602, 7694063513458488491, 3209163260062978894,
      1213791608083619123, 756237961118974333, 387603828884620487);
    Square(18446744073709551557, 11493017446059487016, 699309077205, 387603828884620487, 8144349353235553,
      2519434279401211148);
    Square(18446744073709551557, 11493017446059487016, 1398618154410, 2519434279401211148, 344101325570428346,
      12966300365218243182);
    SquareTimes(18446744073709551557, 11493017446059487016, 2797236308820, 12966300365218243182,
      9114071539631309486, 8244393616749315422, 5136568236154153443, 1);
    Ordered(18446744073709551557, 5594472617641, 11493017446059487016, 1898613474652435203, 1182907818328939492);
  }

  lemma Order181Of22605091()
    ensures HasOrder(22605091, 181, 13954217, 19569746)
  {
    hide Leaves, HasOrder;
    Start(22605091, 13954217);
    Square(22605091, 13954217, 1, 13954217, 8613996, 8629453);
    SquareTimes(22605091, 13954217, 2, 8629453, 3294278, 5109911, 3154369, 8652108);
    SquareTimes(22605091, 13954217, 5, 8652108, 3311597, 21303337, 13150638, 18624071);
    Square(22605091, 13954217, 11, 18624071, 15344155, 519936);
    SquareTimes(22605091, 13954217, 22, 519936, 11958, 21765918, 13436192, 122734);
    Square(22605091, 13954217, 45, 122734, 666, 8644150);
    SquareTimes(22605091, 13954217, 90, 8644150, 3305508, 20081272, 12396253, 1);
    Ordered(22605091, 181, 13954217, 19569746, 12080485);
  }

  lemma Order23Of22605091()
    ensures HasOrder(22605091, 23, 22417619, 7421446)
  {
    hide Leaves, HasOrder;
    Start(22605091, 22417619);
    Square(22605091, 22417619, 1, 22417619, 22231701, 17439370);
    SquareTimes(22605091, 22417619, 2, 17439370, 13454120, 19071980, 18913809, 7614001);
    SquareTimes(22605091, 22417619, 5, 7614001, 2564599, 17454492, 17309735, 16633663);
    SquareTimes(22605091, 22417619, 11, 16633663, 12239665, 3663054, 3632675, 1);
    Ordered(22605091, 23, 22417619, 7421446, 7359897);
  }

  lemma Order5Of22605091()
    ensures HasOrder(22605091, 5, 18020114, 891059)
  {
    hide Leaves, HasOrder;
    Start(22605091, 18020114);
    Square(22605091, 18020114, 1, 18020114, 14365105, 2823441);
    SquareTimes(22605091, 18020114, 2, 2823441, 352655, 20713876, 16512493, 1);
    Ordered(22605091, 5, 18020114, 891059, 710326);
  }

  lemma Order22605091Of4294967291()
    ensures HasOrder(4294967291, 22605091, 1073745729, 1771216906)
  {
    hide Leaves, HasOrder;
    Start(4294967291, 1073745729);
    Square(4294967291, 1073745729, 1, 1073745729, 268437408, 3504919713);
    SquareTimes(4294967291, 1073745729, 2, 3504919713, 2860199243, 148041656, 37010548, 2762101756);
    Square(4294967291, 1073745729, 5, 2762101756, 1776312971, 1474251975);
    SquareTimes(4294967291, 1073745729, 10, 1474251975, 506038518, 2995285887, 748824195, 4065820878);
    SquareTimes(4294967291, 1073745729, 21, 4065820878, 3848899954, 3219286270, 804824495, 1820247785);
    Square(4294967291, 1073745729, 43, 1820247785, 771438237, 3855700258);
    Square(4294967291, 1073745729, 86, 3855700258, 3461359184, 1858816020);
    Square(4294967291, 1073745729, 172, 1858816020, 804475741, 2210652769);
    SquareTimes(4294967291, 1073745729, 344, 2210652769, 1137840019, 1091548832, 272888200, 3255072328);
    SquareTimes(4294967291, 1073745729, 689, 3255072328, 2466956123, 3894166791, 973545239, 2036108090);
    SquareTimes(4294967291, 1073745729, 1379, 2036108090, 965254418, 1360206462, 340052852, 2579436866);
    Square(4294967291, 1073745729, 2759, 2579436866, 1549137419, 1810740027);
    SquareTimes(4294967291, 1073745729, 5518, 1810740027, 763400329, 2386321990, 596582667, 3638735613);
    SquareTimes(4294967291, 1073745729, 11037, 3638735613, 3082770127, 177569812, 44392614, 2142344274);
    Square(4294967291, 1073745729, 22075, 2142344274, 1068608601, 164317185);
    SquareTimes(4294967291, 1073745729, 44150, 164317185, 6286459, 1505111656, 376279282, 3827152162);
    Square(4294967291, 1073745729, 88301, 3827152162, 3410292251, 305512203);
    Square(4294967291, 1073745729, 176602, 305512203, 21731878, 999910711);
    SquareTimes(4294967291, 1073745729, 353204, 999910711, 232789067, 1505118024, 376280874, 3852027162);
    Square(4294967291, 1073745729, 706409, 3852027162, 3454767464, 894754220);
    Square(4294967291, 1073745729, 1412818, 894754220, 186400747, 2824842023);
    Square(4294967291, 1073745729, 2825636, 2824842023, 1857926245, 3541280234);
    SquareTimes(4294967291, 1073745729, 5651272, 3541280234, 2919851269, 779252477, 194813827, 4191888076);
    SquareTimes(4294967291, 1073745729, 11302545, 4191888076, 4091282762, 688844034, 172211635, 1);
    Ordered(4294967291, 22605091, 1073745729, 1771216906, 442805837);
  }

  lemma SmallPrime(j: nat, p: nat)
    requires 1 <= j < 48 && SMALL_PRIMES[j] == p
    ensures IsPrime(p)
  {
    SmallPrimeIsPrime(j);
  }

  lemma AtLeast(r: nat, p: nat)
    requires r >= 1 && IsPrime(p) && Divides(r, p - 1)
    ensures p >= r + 1
  {
    if p - 1 < r { ModOfMultiple(r, 0, p - 1); }
  }

  lemma Prime2131()
    ensures IsPrime(2131)
  {
    SmallPrime(20, 71);
    Order71Of2131();
    forall p: nat | IsPrime(p) && Divides(p, 2131) ensures p >= 72 {
      PrimeDivisorsAreOneMore(2131, 71, 1247, 183, p);
      AtLeast(71, p);
    }
    LargeDivisorsOnly(2131, 72);
  }

  lemma Prime15331()
    ensures IsPrime(15331)
  {
    SmallPrime(21, 73);
    SmallPrime(1, 2);
    Order73Of15331();
    Order2Of15331();
    forall p: nat | IsPrime(p) && Divides(p, 15331) ensures p >= 147 {
      PrimeDivisorsAreOneMore(15331, 73, 7853, 6453, p);
      PrimeDivisorsAreOneMore(15331, 2, 15330, 7665, p);
      BothDivide(73, 2, p - 1);
      AtLeast(146, p);
    }
    LargeDivisorsOnly(15331, 147);
  }

  lemma Prime5594472617641()
    ensures IsPrime(5594472617641)
  {
    Prime2131();
    Prime15331();
    Order2131Of5594472617641();
    Order15331Of5594472617641();
    forall p: nat | IsPrime(p) && Divides(p, 5594472617641) ensures p >= 32670362 {
      PrimeDivisorsAreOneMore(5594472617641, 2131, 1346892610175, 1933328135809, p);
      PrimeDivisorsAreOneMore(5594472617641, 15331, 1852426820963, 3161697676777, p);
      BothDivide(2131, 15331, p - 1);
      AtLeast(32670361, p);
    }
    LargeDivisorsOnly(5594472617641, 32670362);
  }

  /** A prime, the limit of the overflow check for 64-bit words. */
  lemma Limit64()
    ensures IsPrime(0xFFFFFFFFFFFFFFC5)
  {
    Prime5594472617641();
    Order5594472617641Of18446744073709551557();
    forall p: nat | IsPrime(p) && Divides(p, 18446744073709551557) ensures p >= 5594472617642 {
      PrimeDivisorsAreOneMore(18446744073709551557, 5594472617641, 11493017446059487016,
        1898613474652435203, p);
      AtLeast(5594472617641, p);
    }
    LargeDivisorsOnly(18446744073709551557, 5594472617642);
  }

  lemma AllDivide(m: nat)
    requires IsPrime(23) && IsPrime(5) && Divides(181, m) && Divides(23, m) && Divides(5, m)
    ensures Divides(20815, m)
  {
    BothDivide(181, 23, m);
    BothDivide(4163, 5, m);
  }

  lemma DivisorOf22605091(p: nat)
    requires IsPrime(p) && Divides(p, 22605091)
    ensures p >= 20816
  {
    SmallPrime(42, 181);
    SmallPrime(9, 23);
    SmallPrime(3, 5);
    Order181Of22605091();
    Order23Of22605091();
    Order5Of22605091();
    PrimeDivisorsAreOneMore(22605091, 181, 13954217, 19569746, p);
    PrimeDivisorsAreOneMore(22605091, 23, 22417619, 7421446, p);
    PrimeDivisorsAreOneMore(22605091, 5, 18020114, 891059, p);
    AllDivide(p - 1);
    AtLeast(20815, p);
  }

  lemma Prime22605091()
    ensures IsPrime(22605091)
  {
    forall p: nat | IsPrime(p) && Divides(p, 22605091) { DivisorOf22605091(p); }
    LargeDivisorsOnly(22605091, 20816);
  }

  /** A prime, the limit of the overflow check for 32-bit words. */
  lemma Limit32()
    ensures IsPrime(0xFFFFFFFB)
  {
    Prime22605091();
    Order22605091Of4294967291();
    forall p: nat | IsPrime(p) && Divides(p, 4294967291) ensures p >= 22605092 {
      PrimeDivisorsAreOneMore(4294967291, 22605091, 1073745729, 1771216906, p);
      AtLeast(22605091, p);
    }
    LargeDivisorsOnly(4294967291, 22605092);
  }
}
