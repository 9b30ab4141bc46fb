/** The certificate for the prime just below 2 to the power of 61. */
module MersennePrime {
  import opened Primes
  import opened LargePrimes
  import opened PrimeCertificates

  const M: nat := 0x1FFFFFFFFFFFFFFF

  lemma Order151()
    ensures HasOrder(M, 151, 2211238755008147949, 1896004468068488480)
  {
    hide Leaves, HasOrder;
    Start(M, 2211238755008147949);
    Square(M, 2211238755008147949, 1, 2211238755008147949, 2120515929363880955, 1905995146105303396);
    Square(M, 2211238755008147949, 2, 1905995146105303396, 1575483448986316291, 63567945049677075);
    SquareTimes(M, 2211238755008147949, 4, 63567945049677075, 1752453927562366, 1288863997991107559,
      1235984414769218308, 1094750906426191583);
    Square(M, 2211238755008147949, 9, 1094750906426191583, 519757651467198829, 652144535748462510);
    SquareTimes(M, 2211238755008147949, 18, 652144535748462510, 184441219028005268, 1403639591507766232,
      1346050988902399905, 1152182138280783513);
    SquareTimes(M, 2211238755008147949, 37, 1152182138280783513, 575721623054455877, 2139767711661321142,
      2051977203926860376, 489946467164852182);
    SquareTimes(M, 2211238755008147949, 75, 489946467164852182, 104104026045197761, 1458550166785717413,
      1398708690068188736, 1);
    Ordered(M, 151, 2211238755008147949, 1896004468068488480, 1818215092141647489);
  }

  lemma Order61()
    ensures HasOrder(M, 61, 1125899906842624, 73219245529501761)
  {
    hide Leaves, HasOrder;
    Start(M, 1125899906842624);
    SquareTimes(M, 1125899906842624, 1, 1125899906842624, 549755813888, 549755813888, 268435456, 268435456);
    SquareTimes(M, 1125899906842624, 3, 268435456, 0, 72057594037927936, 35184372088832, 35184372088832);
    SquareTimes(M, 1125899906842624, 7, 35184372088832, 536870912, 536870912, 262144, 262144);
    Square(M, 1125899906842624, 15, 262144, 0, 68719476736);
    SquareTimes(M, 1125899906842624, 30, 68719476736, 2048, 2048, 1, 1);
    Ordered(M, 61, 1125899906842624, 73219245529501761, 35751584731202);
  }

  lemma Order41()
    ensures HasOrder(M, 41, 439424789145975530, 1451457279514327107)
  {
    hide Leaves, HasOrder;
    Start(M, 439424789145975530);
    Square(M, 439424789145975530, 1, 439424789145975530, 83741236738329074, 595551636397549526);
    SquareTimes(M, 439424789145975530, 2, 595551636397549526, 153818690257125355, 1436611179610597071,
      273775171233538952, 1610792069690393278);
    Square(M, 439424789145975530, 5, 1610792069690393278, 1125250540218803578, 383540499231828606);
    Square(M, 439424789145975530, 10, 383540499231828606, 63795893286405225, 207904958442609261);
    SquareTimes(M, 439424789145975530, 20, 207904958442609261, 18745626468196932, 361727467677807789,
      68934448519473119, 1);
    Ordered(M, 41, 439424789145975530, 1451457279514327107, 276604394339261702);
  }

  lemma Order31()
    ensures HasOrder(M, 31, 484083891529811867, 42235654463646013)
  {
    hide Leaves, HasOrder;
    Start(M, 484083891529811867);
    SquareTimes(M, 484083891529811867, 1, 484083891529811867, 101627566621960543, 1239013249614250296,
      260115867877230347, 1914371256341531635);
    SquareTimes(M, 484083891529811867, 3, 1914371256341531635, 1589361154451004240, 1740096485742420985,
      365312241592192422, 544203650753389673);
    SquareTimes(M, 484083891529811867, 7, 544203650753389673, 128437891179030792, 852320633089907737,
      178934423223380110, 196289422717000369);
    SquareTimes(M, 484083891529811867, 15, 196289422717000369, 16709523292182870, 1332994050241316791,
      279846001938764596, 1);
    Ordered(M, 31, 484083891529811867, 42235654463646013, 8866865563862607);
  }

  lemma Order13()
    ensures HasOrder(M, 13, 844735144842896729, 443514988549772056)
  {
    hide Leaves, HasOrder;
    Start(M, 844735144842896729);
    SquareTimes(M, 844735144842896729, 1, 844735144842896729, 309464895086714439, 2133975400680240952,
      781772224727265431, 2299505434996538127);
    Square(M, 844735144842896729, 3, 2299505434996538127, 2293185279505114049, 1055631887728250530);
    SquareTimes(M, 844735144842896729, 6, 1055631887728250530, 483276041749569328, 1400914680196545972,
      513218749307619437, 1);
    Ordered(M, 13, 844735144842896729, 443514988549772056, 162479707679815617);
  }

  lemma Order11()
    ensures HasOrder(M, 11, 54008984094220448, 188460807465984984)
  {
    hide Leaves, HasOrder;
    Start(M, 54008984094220448);
    Square(M, 54008984094220448, 1, 54008984094220448, 1265034241808362, 145163580560702442);
    SquareTimes(M, 54008984094220448, 2, 145163580560702442, 9138724985613562, 142745710241799902, 3343484687882794,
      1798031321018017002);
    SquareTimes(M, 54008984094220448, 5, 1798031321018017002, 1402054094074790860, 2266698407988980144,
      53092113285378561, 1);
    Ordered(M, 11, 54008984094220448, 188460807465984984, 4414254011284697);
  }

  lemma AllDivide(m: nat)
    requires Divides(151, m) && Divides(61, m) && Divides(41, m) && Divides(31, m) && Divides(13, m) && Divides(11,
      m) && IsPrime(61) && IsPrime(41) && IsPrime(31) && IsPrime(13) && IsPrime(11)
    ensures Divides(1674126883, m)
  {
    BothDivide(151, 61, m);
    BothDivide(9211, 41, m);
    BothDivide(377651, 31, m);
    BothDivide(11707181, 13, m);
    BothDivide(152193353, 11, m);
  }

  lemma DivisorOfM(p: nat)
    requires IsPrime(p) && Divides(p, M)
    ensures p >= 1674126884
  {
    hide HasOrder;
    SmallPrime(36, 151);
    Order151();
    PrimeDivisorsAreOneMore(M, 151, 2211238755008147949, 1896004468068488480, p);
    SmallPrime(18, 61);
    Order61();
    PrimeDivisorsAreOneMore(M, 61, 1125899906842624, 73219245529501761, p);
    SmallPrime(13, 41);
    Order41();
    PrimeDivisorsAreOneMore(M, 41, 439424789145975530, 1451457279514327107, p);
    SmallPrime(11, 31);
    Order31();
    PrimeDivisorsAreOneMore(M, 31, 484083891529811867, 42235654463646013, p);
    SmallPrime(6, 13);
    Order13();
    PrimeDivisorsAreOneMore(M, 13, 844735144842896729, 443514988549772056, p);
    SmallPrime(5, 11);
    Order11();
    PrimeDivisorsAreOneMore(M, 11, 54008984094220448, 188460807465984984, p);
    AllDivide(p - 1);
    AtLeast(1674126883, p);
  }

  lemma MIsPrime()
    ensures IsPrime(M)
  {
    forall p: nat | IsPrime(p) && Divides(p, M) { DivisorOfM(p); }
    LargeDivisorsOnly(M, 1674126884);
  }
}
