// The parameters the library generates for the eta_T pairing: in every row the order times the cofactor is the number
// the final powering leaves.
module EtaParameters {
  import opened Arith
  import opened TernaryFrobenius
  import opened EtaFinalPower

  datatype Params = Params(m: nat, t: nat, n: nat, n2: nat)
  datatype Generated = Ready(p: Params) | Unsupported

  function Generate(groupSize: int): Generated
  {
    if groupSize <= 150 then Ready(Params(97, 12,
      2726865189058261010774960798134976187171462721,
      7))
    else if groupSize <= 206 then Ready(Params(199, 164,
      167725321489096000055336949742738378351010268990525380470313869,
      527874953560391326545598291952743))
    else if groupSize <= 259 then Ready(Params(235, 26,
      1124316700897695330265827797088699345032488681307846555184025129863722718180241,
      11819693021332914275777073321995059))
    else if groupSize <= 316 then Ready(Params(385, 22,
      140884762419712839999909157778648717913595360839856026704744558309545986970238264714753014287541,
      34899486997246711147841377458771182755186809219564106252058066150110543296498189654810187))
    else if groupSize <= 376 then Ready(Params(337, 30,
      250796519030408069744426774377542635685621984993105288007781750196791322190409525696108840742205849171229571431053,
      245777055088325363697128811262733732423405120899))
    else if groupSize <= 430 then Ready(Params(373, 198,
      2840685307599487500956683789051368080919805957805957356540760731597378326586402072132959867084691357708217739285576524329854284197,
      3256903458766749542151641063558247849550904613763))
    else if groupSize <= 484 then Ready(Params(395, 338,
      80172097064154181257340545445945701478615643539554910656655431171167598268341527430200810544156625333601812351266052856520678455274751591367269291,
      3621365590261279902324876775553649595261567))
    else if groupSize <= 552 then Ready(Params(433, 120,
      15699907553631673835088720676147779193076555382157913339177784853763686462870506492752576492212322736133645158157557950634628006965882177348385366381692092784577773463,
      24980791723059119877470531054938874784049))
    else if groupSize <= 644 then Ready(Params(467, 48,
      108220469499363631995525712756135494735252733492048868417164002000654321383482753640072319529019505742300964525569770933946381504691909098938045089999753901375631613294579329433690943459352138231,
      60438898450096967424971813347))
    else if groupSize <= 696 then Ready(Params(503, 104,
      545523657676112447260904563578912738373307867219686215849632469801471112426878939776725222290437653718473962733760874627315930933126581248465899651120481066111839081575164964589811985885719017214938514563804313,
      1799606423432800810122901025413))
    else if groupSize <= 803 then Ready(Params(509, 358,
      102239946202586852409809887418093021457150612495255706614733003327526279081563687830782748305746187060264985869283524441819589592750998086186315250781067131293823177124077445718802216415539934838376431091001197641295264650596195201747790167311,
      7))
    else if groupSize <= 892 then Ready(Params(617, 88,
      57591959284219511220590893724691916802833742568034971006633345422620650391172287893878655658086794200963521584019889327992536532560877385225451713282279597074750857647455565899702728629166541223955196002755787520206774906606158388947359746178875040401304783332742806641,
      42019638181715250622338241))
    else Unsupported
  }

  // Powers of three by doubling the exponent.
  lemma {:induction false} Doublings()
    ensures Pow(3, 1) == 3
    ensures Pow(3, 2) == 9
    ensures Pow(3, 4) == 81
    ensures Pow(3, 8) == 6561
    ensures Pow(3, 16) == 43046721
    ensures Pow(3, 32) == 1853020188851841
    ensures Pow(3, 64) == 3433683820292512484657849089281
    ensures Pow(3, 128) == 11790184577738583171520872861412518665678211592275841109096961
    ensures Pow(3, 256) == 139008452377144732764939786789661303114218850808529137991604824430036072629766435941001769154109609521811665540548899435521
  {
    hide *;
    PowerOfThree(1);
    PowAdds(1, 1);
    PowAdds(2, 2);
    PowAdds(4, 4);
    PowAdds(8, 8);
    PowAdds(16, 16);
    PowAdds(32, 32);
    PowAdds(64, 64);
    PowAdds(128, 128);
  }

  // 3^m from 3^((m+1)/2).
  lemma {:induction false} OrderFromHalf(m: nat, y: int, order: int)
    requires m % 2 == 1 && Pow(3, (m + 1) / 2) == y && 3 * order == y * y + 3 + (if Plus(m) then 3 * y else -3 * y)
    ensures GroupOrder(m) == order
  {
    hide Pow;
    var h := (m + 1) / 2;
    PowAdds(h, h);
    assert h + h == m + 1;
    PowerOfThree(m + 1);
  }

  lemma {:induction false} Order97()
    ensures GroupOrder(97) == 2726865189058261010774960798134976187171462721
      * 7
  {
    hide Pow, GroupOrder;
    Doublings();
    PowAdds(32, 16);
    PowAdds(48, 1);
    OrderFromHalf(97, 239299329230617529590083, 2726865189058261010774960798134976187171462721
      * 7);
  }

  lemma {:induction false} Order199()
    ensures GroupOrder(199) == 167725321489096000055336949742738378351010268990525380470313869
      * 527874953560391326545598291952743
  {
    hide Pow, GroupOrder;
    Doublings();
    PowAdds(64, 32);
    PowAdds(96, 4);
    OrderFromHalf(199, 515377520732011331036461129765621272702107522001, 167725321489096000055336949742738378351010268990525380470313869
      * 527874953560391326545598291952743);
  }

  lemma {:induction false} Order235()
    ensures GroupOrder(235) == 1124316700897695330265827797088699345032488681307846555184025129863722718180241
      * 11819693021332914275777073321995059
  {
    hide Pow, GroupOrder;
    Doublings();
    PowAdds(64, 32);
    PowAdds(96, 16);
    PowAdds(112, 4);
    PowAdds(116, 2);
    OrderFromHalf(235, 199667811101603467823686647723289448859052847504205678489, 1124316700897695330265827797088699345032488681307846555184025129863722718180241
      * 11819693021332914275777073321995059);
  }

  lemma {:induction false} Order385()
    ensures GroupOrder(385) == 140884762419712839999909157778648717913595360839856026704744558309545986970238264714753014287541
      * 34899486997246711147841377458771182755186809219564106252058066150110543296498189654810187
  {
    hide Pow, GroupOrder;
    Doublings();
    PowAdds(128, 64);
    PowAdds(192, 1);
    OrderFromHalf(385, 121451298068529844233553416568714964256622520646270917226600348303197298080156462274524325123, 140884762419712839999909157778648717913595360839856026704744558309545986970238264714753014287541
      * 34899486997246711147841377458771182755186809219564106252058066150110543296498189654810187);
  }

  lemma {:induction false} Order337()
    ensures GroupOrder(337) == 250796519030408069744426774377542635685621984993105288007781750196791322190409525696108840742205849171229571431053
      * 245777055088325363697128811262733732423405120899
  {
    hide Pow, GroupOrder;
    Doublings();
    PowAdds(128, 32);
    PowAdds(160, 8);
    PowAdds(168, 1);
    OrderFromHalf(337, 430023359390034222082732011948356798311147247214997695270038813781532497547421283, 250796519030408069744426774377542635685621984993105288007781750196791322190409525696108840742205849171229571431053
      * 245777055088325363697128811262733732423405120899);
  }

  lemma {:induction false} Order373()
    ensures GroupOrder(373) == 2840685307599487500956683789051368080919805957805957356540760731597378326586402072132959867084691357708217739285576524329854284197
      * 3256903458766749542151641063558247849550904613763
  {
    hide Pow, GroupOrder;
    Doublings();
    PowAdds(128, 32);
    PowAdds(160, 16);
    PowAdds(176, 8);
    PowAdds(184, 2);
    PowAdds(186, 1);
    OrderFromHalf(373, 166599860176309800046026634524986233548179040667038295235391424284221259369213254148867387, 2840685307599487500956683789051368080919805957805957356540760731597378326586402072132959867084691357708217739285576524329854284197
      * 3256903458766749542151641063558247849550904613763);
  }

  lemma {:induction false} Order395()
    ensures GroupOrder(395) == 80172097064154181257340545445945701478615643539554910656655431171167598268341527430200810544156625333601812351266052856520678455274751591367269291
      * 3621365590261279902324876775553649595261567
  {
    hide Pow, GroupOrder;
    Doublings();
    PowAdds(128, 64);
    PowAdds(192, 4);
    PowAdds(196, 2);
    OrderFromHalf(395, 29512665430652752148753480226197736314359272517043832886063884637676943433478020332709411004889, 80172097064154181257340545445945701478615643539554910656655431171167598268341527430200810544156625333601812351266052856520678455274751591367269291
      * 3621365590261279902324876775553649595261567);
  }

  lemma {:induction false} Order433()
    ensures GroupOrder(433) == 15699907553631673835088720676147779193076555382157913339177784853763686462870506492752576492212322736133645158157557950634628006965882177348385366381692092784577773463
      * 24980791723059119877470531054938874784049
  {
    hide Pow, GroupOrder;
    Doublings();
    PowAdds(128, 64);
    PowAdds(192, 16);
    PowAdds(208, 8);
    PowAdds(216, 1);
    OrderFromHalf(433, 34301433818510654479997622149056072840806381240712147713459454414705167747070180824150668119248233312163, 15699907553631673835088720676147779193076555382157913339177784853763686462870506492752576492212322736133645158157557950634628006965882177348385366381692092784577773463
      * 24980791723059119877470531054938874784049);
  }

  lemma {:induction false} Order467()
    ensures GroupOrder(467) == 108220469499363631995525712756135494735252733492048868417164002000654321383482753640072319529019505742300964525569770933946381504691909098938045089999753901375631613294579329433690943459352138231
      * 60438898450096967424971813347
  {
    hide Pow, GroupOrder;
    Doublings();
    PowAdds(128, 64);
    PowAdds(192, 32);
    PowAdds(224, 8);
    PowAdds(232, 2);
    OrderFromHalf(467, 4429692754456178336783573163941511542801609124865708991796231237006094959798985924070291617478620287394759702569, 108220469499363631995525712756135494735252733492048868417164002000654321383482753640072319529019505742300964525569770933946381504691909098938045089999753901375631613294579329433690943459352138231
      * 60438898450096967424971813347);
  }

  lemma {:induction false} Order503()
    ensures GroupOrder(503) == 545523657676112447260904563578912738373307867219686215849632469801471112426878939776725222290437653718473962733760874627315930933126581248465899651120481066111839081575164964589811985885719017214938514563804313
      * 1799606423432800810122901025413
  {
    hide Pow, GroupOrder;
    Doublings();
    PowAdds(128, 64);
    PowAdds(192, 32);
    PowAdds(224, 16);
    PowAdds(240, 8);
    PowAdds(248, 4);
    OrderFromHalf(503, 1716153733051169540307898602341497569311343837142335036933392894197976205305758468407429248816168018787798340006776536241, 545523657676112447260904563578912738373307867219686215849632469801471112426878939776725222290437653718473962733760874627315930933126581248465899651120481066111839081575164964589811985885719017214938514563804313
      * 1799606423432800810122901025413);
  }

  lemma {:induction false} Order509()
    ensures GroupOrder(509) == 102239946202586852409809887418093021457150612495255706614733003327526279081563687830782748305746187060264985869283524441819589592750998086186315250781067131293823177124077445718802216415539934838376431091001197641295264650596195201747790167311
      * 7
  {
    hide Pow, GroupOrder;
    Doublings();
    PowAdds(128, 64);
    PowAdds(192, 32);
    PowAdds(224, 16);
    PowAdds(240, 8);
    PowAdds(248, 4);
    PowAdds(252, 2);
    PowAdds(254, 1);
    OrderFromHalf(509, 46336150792381577588313262263220434371406283602843045997201608143345357543255478647000589718036536507270555180182966478507, 102239946202586852409809887418093021457150612495255706614733003327526279081563687830782748305746187060264985869283524441819589592750998086186315250781067131293823177124077445718802216415539934838376431091001197641295264650596195201747790167311
      * 7);
  }

  lemma {:induction false} Order617()
    ensures GroupOrder(617) == 57591959284219511220590893724691916802833742568034971006633345422620650391172287893878655658086794200963521584019889327992536532560877385225451713282279597074750857647455565899702728629166541223955196002755787520206774906606158388947359746178875040401304783332742806641
      * 42019638181715250622338241
  {
    hide Pow, GroupOrder;
    Doublings();
    PowAdds(256, 32);
    PowAdds(288, 16);
    PowAdds(304, 4);
    PowAdds(308, 1);
    OrderFromHalf(617, 2694434982310195004637270196961644323167904920993516762068144581312536971444714324595769457762425433344934285244290316744698371119027189930782597683, 57591959284219511220590893724691916802833742568034971006633345422620650391172287893878655658086794200963521584019889327992536532560877385225451713282279597074750857647455565899702728629166541223955196002755787520206774906606158388947359746178875040401304783332742806641
      * 42019638181715250622338241);
  }

  // Every generated degree is odd and prime to three, the trinomial is proper, and n*n2 is the group order.
  lemma {:induction false} GeneratedOrders(groupSize: int)
    ensures match Generate(groupSize)
            case Ready(p) => p.m % 2 == 1 && p.m % 3 != 0 && 0 < p.t < p.m && p.n * p.n2 == GroupOrder(p.m)
            case Unsupported => groupSize > 892
  {
    hide Pow, GroupOrder;
    Order97();
    Order199();
    Order235();
    Order385();
    Order337();
    Order373();
    Order395();
    Order433();
    Order467();
    Order503();
    Order509();
    Order617();
  }
}
