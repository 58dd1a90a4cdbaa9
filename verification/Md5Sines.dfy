/** The table T of RFC 1321 is the sine table section 3.4 says it is. */
module Md5Sines {
  import opened Md5

  function Factorial(n: nat): (f: nat)
    ensures f > 0
  {
    if n == 0 then 1 else n * Factorial(n - 1)
  }

  function Term(j: nat, k: nat): real {
    (if j % 2 == 0 then 1.0 else -1.0) / Factorial(k) as real
  }

  /** The first n terms of the power series of the sine and the cosine at one radian. */
  function SinSum(n: nat): real { if n == 0 then 0.0 else SinSum(n - 1) + Term(n - 1, 2 * n - 1) }
  function CosSum(n: nat): real { if n == 0 then 0.0 else CosSum(n - 1) + Term(n - 1, 2 * n - 2) }

  /** What is known here of the sine and cosine of whole numbers of radians: their values at zero, the addition theorem,
      and that an alternating series lies between its partial sums. */
  ghost predicate Sines(s: nat -> real, c: nat -> real) {
    && s(0) == 0.0 && c(0) == 1.0
    && SinSum(14) <= s(1) <= SinSum(13) && CosSum(14) <= c(1) <= CosSum(13)
    && forall n: nat :: Adds(s, c, n)
  }

  ghost predicate Adds(s: nat -> real, c: nat -> real, n: nat) {
    s(n + 1) == s(n) * c(1) + c(n) * s(1) && c(n + 1) == c(n) * c(1) - s(n) * s(1)
  }

  /** There are such functions: a turn by the angle whose sine and cosine are partial sums, again and again. */
  function Turns(n: nat): (real, real) {
    if n == 0 then (0.0, 1.0)
    else
      var (x, y) := Turns(n - 1);
      (x * CosSum(13) + y * SinSum(13), y * CosSum(13) - x * SinSum(13))
  }

  lemma TurnsNext(n: nat)
    ensures Turns(0) == (0.0, 1.0)
    ensures Turns(n + 1).0 == Turns(n).0 * CosSum(13) + Turns(n).1 * SinSum(13)
    ensures Turns(n + 1).1 == Turns(n).1 * CosSum(13) - Turns(n).0 * SinSum(13)
  {
    hide SinSum, CosSum;
  }

  lemma SumsFall()
    ensures SinSum(14) <= SinSum(13) && CosSum(14) <= CosSum(13)
  {
    hide Factorial;
    assert Term(13, 27) <= 0.0 && Term(13, 26) <= 0.0;
    assert SinSum(14) == SinSum(13) + Term(13, 27) && CosSum(14) == CosSum(13) + Term(13, 26);
  }

  lemma SinesExist()
    ensures Sines((n: nat) => Turns(n).0, (n: nat) => Turns(n).1)
  {
    hide Turns, SinSum, CosSum, Adds;
    var s, c := (n: nat) => Turns(n).0, (n: nat) => Turns(n).1;
    SumsFall();
    FirstTurn();
    forall n: nat ensures Adds(s, c, n) { TurnsAdd(s, c, n); }
  }

  lemma FirstTurn()
    ensures Turns(0) == (0.0, 1.0) && Turns(1) == (SinSum(13), CosSum(13))
  {
    TurnsNext(0);
  }

  lemma TurnsAdd(s: nat -> real, c: nat -> real, n: nat)
    requires forall m: nat :: Turns(m) == (s(m), c(m))
    ensures Adds(s, c, n)
  {
    hide Turns, SinSum, CosSum;
    FirstTurn();
    TurnsNext(n);
    assert Turns(1) == (s(1), c(1)) && Turns(n) == (s(n), c(n)) && Turns(n + 1) == (s(n + 1), c(n + 1));
  }

  function Abs(x: real): real { if x < 0.0 then -x else x }


  function Row0(n: nat): (real, real) {
    match n
    case 0 => (0.00000000000000000000000000, 1.00000000000000000000000000)
    case 1 => (0.84147098480789650665250232, 0.54030230586813971740093661)
    case 2 => (0.90929742682568169539601987, -0.41614683654714238699756823)
    case 3 => (0.14112000805986722210074480, -0.98999249660044545727157279)
    case 4 => (-0.75680249530792825137263909, -0.65364362086361191463916818)
    case 5 => (-0.95892427466313846889315441, 0.28366218546322626446663917)
    case 6 => (-0.27941549819892587281155545, 0.96017028665036602054565230)
    case 7 => (0.65698659871878909039699909, 0.75390225434330463814119752)
    case 8 => (0.98935824662338177780812360, -0.14550003380861352586884138)
    case 9 => (0.41211848524175656975627257, -0.91113026188467698836829471)
    case 10 => (-0.54402111088936981340474766, -0.83907152907645245225886395)
    case 11 => (-0.99999020655070345705156490, 0.00442569798805078574835502)
    case 12 => (-0.53657291800043497166537423, 0.84385395873249210465395529)
    case 13 => (0.42016703682664092186895504, 0.90744678145019621385268616)
    case 14 => (0.99060735569487030787535480, 0.13673721820783359424892888)
    case _ => (0.65028784015711686582974027, -0.75968791285882127384814640)
  }

  function Row1(n: nat): (real, real) {
    match n
    case 16 => (-0.28790331666506529478445625, -0.95765948032338464189963723)
    case 17 => (-0.96139749187955685726163694, -0.27516333805159692222034266)
    case 18 => (-0.75098724677167610375015608, 0.66031670824408014481610004)
    case 19 => (0.14987720966295232975423932, 0.98870461818666925289835286)
    case 20 => (0.91294525072762765437609998, 0.40808206181339198606226786)
    case 21 => (0.83665563853605603186648077, -0.54772926022426842138427113)
    case 22 => (-0.00885130929040387592169026, -0.99996082639463712645417474)
    case 23 => (-0.84622040417517063524132627, -0.53283302033339755521575766)
    case 24 => (-0.90557836200662384513579336, 0.42417900733699697593705094)
    case 25 => (-0.13235175009777302890200509, 0.99120281186347359808329472)
    case 26 => (0.76255845047960273751582329, 0.64691932232864034272138390)
    case 27 => (0.95637592840450301343234056, -0.29213880873383619337140484)
    case 28 => (0.27090578830786901998634309, -0.96260586631356660197545306)
    case 29 => (-0.66363388421296750215117334, -0.74805752968900035176519179)
    case 30 => (-0.98803162409286178998774891, 0.15425144988758405071866215)
    case _ => (-0.40403764532306500604877090, 0.91474235780453127896243583)
  }

  function Row2(n: nat): (real, real) {
    match n
    case 32 => (0.55142668124169055066155817, 0.83422336050651027221552647)
    case 33 => (0.99991186010726714572808438, -0.01327674722305947891522003)
    case 34 => (0.52908268612002382083248713, -0.84857027478460518659997209)
    case 35 => (-0.42818266949615100440675289, -0.90369220509150675984730457)
    case 36 => (-0.99177885344311573683528897, -0.12796368962740468102832798)
    case 37 => (-0.64353813335699946068567002, 0.76541405194534335649108129)
    case 38 => (0.29636857870938531739229665, 0.95507364404729485758653624)
    case 39 => (0.96379538628408775326066497, 0.26664293235993725152682579)
    case 40 => (0.74511316047934878698770940, -0.66693806165226184438409278)
    case 41 => (-0.15862266880470898710331701, -0.98733927752382645822882513)
    case 42 => (-0.91652154791563378589898916, -0.39998531498835129395470734)
    case 43 => (-0.83177474262859828820957826, 0.55511330152062567704487944)
    case 44 => (0.01770192510541357780795405, 0.99984330864769122006900902)
    case 45 => (0.85090352453411842486237968, 0.52532198881772969604746440)
    case 46 => (0.90178834764880918503329304, -0.43217794488477829495277652)
    case _ => (0.12357312274522400406152935, -0.99233546915092871827975242)
  }

  function Row3(n: nat): (real, real) {
    match n
    case 48 => (-0.76825466132366679904496566, -0.64014433946919973131294142)
    case 49 => (-0.95375265275947181836042356, 0.30059254374363708368702600)
    case 50 => (-0.26237485370392878591439365, 0.96496602849211327406895706)
    case 51 => (0.67022917584337473449434507, 0.74215419681378253946737718)
    case 52 => (0.98662759204048529658756893, -0.16299078079570548100332982)
    case 53 => (0.39592515018183418150338614, -0.91828278621211889119972632)
    case 54 => (-0.55878904885161624581787132, -0.82930983286315014772785004)
    case 55 => (-0.99975517335861983659863168, 0.02212675626195573456356426)
    case 56 => (-0.52155100208691188018741002, 0.85322010772258411396968123)
    case 57 => (0.43616475524782495908053479, 0.89986682696919378650300040)
    case 58 => (0.99287264808453711816508816, 0.11918013544881928543584361)
    case 59 => (0.63673800713913788077123349, -0.77108022297584522938743530)
    case 60 => (-0.30481062110221670562564947, -0.95241298041515629269381660)
    case 61 => (-0.96611777000839294701828799, -0.25810163593826744570120735)
    case 62 => (-0.73918069664922286727601693, 0.67350716232358625288783341)
    case _ => (0.16735570030280692152783837, 0.98589658158254969743863576)
  }

  /** The sine and the cosine of n radians to twenty-six places. */
  function Row(n: nat): (real, real) {
    if n < 16 then Row0(n) else if n < 32 then Row1(n) else if n < 48 then Row2(n) else if n < 64 then Row3(n)
    else (0.92002603819679068335153660, 0.39185723042955000516170986)
  }

  const STEP_ERROR := 0.00000000000000000000000005

  /** How far the row for n radians can be off: half as much again for every radian. */
  function Err(n: nat): (e: real)
    ensures e > 0.0
  {
    if n == 0 then 0.000000000000000000000005 else 1.5 * Err(n - 1)
  }

  ghost predicate Near(x: real, y: real, e: real) { y - e <= x <= y + e }

  lemma Factorials()
    ensures Factorial(1) == 1
    ensures Factorial(2) == 2
    ensures Factorial(3) == 6
    ensures Factorial(4) == 24
    ensures Factorial(5) == 120
    ensures Factorial(6) == 720
    ensures Factorial(7) == 5040
    ensures Factorial(8) == 40320
    ensures Factorial(9) == 362880
    ensures Factorial(10) == 3628800
    ensures Factorial(11) == 39916800
    ensures Factorial(12) == 479001600
    ensures Factorial(13) == 6227020800
    ensures Factorial(14) == 87178291200
    ensures Factorial(15) == 1307674368000
    ensures Factorial(16) == 20922789888000
    ensures Factorial(17) == 355687428096000
    ensures Factorial(18) == 6402373705728000
    ensures Factorial(19) == 121645100408832000
    ensures Factorial(20) == 2432902008176640000
    ensures Factorial(21) == 51090942171709440000
    ensures Factorial(22) == 1124000727777607680000
    ensures Factorial(23) == 25852016738884976640000
    ensures Factorial(24) == 620448401733239439360000
    ensures Factorial(25) == 15511210043330985984000000
    ensures Factorial(26) == 403291461126605635584000000
    ensures Factorial(27) == 10888869450418352160768000000
  {
    assert Factorial(1) == 1;
    assert Factorial(2) == 2;
    assert Factorial(3) == 6;
    assert Factorial(4) == 24;
    assert Factorial(5) == 120;
    assert Factorial(6) == 720;
    assert Factorial(7) == 5040;
    assert Factorial(8) == 40320;
    assert Factorial(9) == 362880;
    assert Factorial(10) == 3628800;
    assert Factorial(11) == 39916800;
    assert Factorial(12) == 479001600;
    assert Factorial(13) == 6227020800;
    assert Factorial(14) == 87178291200;
    assert Factorial(15) == 1307674368000;
    assert Factorial(16) == 20922789888000;
    assert Factorial(17) == 355687428096000;
    assert Factorial(18) == 6402373705728000;
    assert Factorial(19) == 121645100408832000;
    assert Factorial(20) == 2432902008176640000;
    assert Factorial(21) == 51090942171709440000;
    assert Factorial(22) == 1124000727777607680000;
    assert Factorial(23) == 25852016738884976640000;
    assert Factorial(24) == 620448401733239439360000;
    assert Factorial(25) == 15511210043330985984000000;
    assert Factorial(26) == 403291461126605635584000000;
    assert Factorial(27) == 10888869450418352160768000000;
  }

  lemma SinAtOne()
    ensures Near(SinSum(13), Row(1).0, STEP_ERROR) && Near(SinSum(14), Row(1).0, STEP_ERROR)
  {
    Factorials();
    assert SinSum(1) == SinSum(0) + 1.0 / 1.0;
    assert SinSum(2) == SinSum(1) - 1.0 / 6.0;
    assert SinSum(3) == SinSum(2) + 1.0 / 120.0;
    assert SinSum(4) == SinSum(3) - 1.0 / 5040.0;
    assert SinSum(5) == SinSum(4) + 1.0 / 362880.0;
    assert SinSum(6) == SinSum(5) - 1.0 / 39916800.0;
    assert SinSum(7) == SinSum(6) + 1.0 / 6227020800.0;
    assert SinSum(8) == SinSum(7) - 1.0 / 1307674368000.0;
    assert SinSum(9) == SinSum(8) + 1.0 / 355687428096000.0;
    assert SinSum(10) == SinSum(9) - 1.0 / 121645100408832000.0;
    assert SinSum(11) == SinSum(10) + 1.0 / 51090942171709440000.0;
    assert SinSum(12) == SinSum(11) - 1.0 / 25852016738884976640000.0;
    assert SinSum(13) == SinSum(12) + 1.0 / 15511210043330985984000000.0;
  }

  lemma CosAtOne()
    ensures Near(CosSum(13), Row(1).1, STEP_ERROR) && Near(CosSum(14), Row(1).1, STEP_ERROR)
  {
    Factorials();
    assert CosSum(1) == CosSum(0) + 1.0 / 1.0;
    assert CosSum(2) == CosSum(1) - 1.0 / 2.0;
    assert CosSum(3) == CosSum(2) + 1.0 / 24.0;
    assert CosSum(4) == CosSum(3) - 1.0 / 720.0;
    assert CosSum(5) == CosSum(4) + 1.0 / 40320.0;
    assert CosSum(6) == CosSum(5) - 1.0 / 3628800.0;
    assert CosSum(7) == CosSum(6) + 1.0 / 479001600.0;
    assert CosSum(8) == CosSum(7) - 1.0 / 87178291200.0;
    assert CosSum(9) == CosSum(8) + 1.0 / 20922789888000.0;
    assert CosSum(10) == CosSum(9) - 1.0 / 6402373705728000.0;
    assert CosSum(11) == CosSum(10) + 1.0 / 2432902008176640000.0;
    assert CosSum(12) == CosSum(11) - 1.0 / 1124000727777607680000.0;
    assert CosSum(13) == CosSum(12) + 1.0 / 620448401733239439360000.0;
  }

  /** The next row follows from one by the addition theorem. */
  ghost predicate Follows(n: nat) {
    var (x, y), (z, w), (a, b) := Row(n), Row(n + 1), Row(1);
    && -1.0 <= x <= 1.0 && -1.0 <= y <= 1.0
    && Near(Mul(x, b) + Mul(y, a), z, STEP_ERROR) && Near(Mul(y, b) - Mul(x, a), w, STEP_ERROR)
  }

  lemma Follow0()
    ensures forall n :: 0 <= n < 8 ==> Follows(n)
  {
    assert Follows(0);
    assert Follows(1);
    assert Follows(2);
    assert Follows(3);
    assert Follows(4);
    assert Follows(5);
    assert Follows(6);
    assert Follows(7);
  }

  lemma Follow1()
    ensures forall n :: 8 <= n < 16 ==> Follows(n)
  {
    assert Follows(8);
    assert Follows(9);
    assert Follows(10);
    assert Follows(11);
    assert Follows(12);
    assert Follows(13);
    assert Follows(14);
    assert Follows(15);
  }

  lemma Follow2()
    ensures forall n :: 16 <= n < 24 ==> Follows(n)
  {
    assert Follows(16);
    assert Follows(17);
    assert Follows(18);
    assert Follows(19);
    assert Follows(20);
    assert Follows(21);
    assert Follows(22);
    assert Follows(23);
  }

  lemma Follow3()
    ensures forall n :: 24 <= n < 32 ==> Follows(n)
  {
    assert Follows(24);
    assert Follows(25);
    assert Follows(26);
    assert Follows(27);
    assert Follows(28);
    assert Follows(29);
    assert Follows(30);
    assert Follows(31);
  }

  lemma Follow4()
    ensures forall n :: 32 <= n < 40 ==> Follows(n)
  {
    assert Follows(32);
    assert Follows(33);
    assert Follows(34);
    assert Follows(35);
    assert Follows(36);
    assert Follows(37);
    assert Follows(38);
    assert Follows(39);
  }

  lemma Follow5()
    ensures forall n :: 40 <= n < 48 ==> Follows(n)
  {
    assert Follows(40);
    assert Follows(41);
    assert Follows(42);
    assert Follows(43);
    assert Follows(44);
    assert Follows(45);
    assert Follows(46);
    assert Follows(47);
  }

  lemma Follow6()
    ensures forall n :: 48 <= n < 56 ==> Follows(n)
  {
    assert Follows(48);
    assert Follows(49);
    assert Follows(50);
    assert Follows(51);
    assert Follows(52);
    assert Follows(53);
    assert Follows(54);
    assert Follows(55);
  }

  lemma Follow7()
    ensures forall n :: 56 <= n < 64 ==> Follows(n)
  {
    assert Follows(56);
    assert Follows(57);
    assert Follows(58);
    assert Follows(59);
    assert Follows(60);
    assert Follows(61);
    assert Follows(62);
    assert Follows(63);
  }

  lemma AllFollow(n: nat)
    requires n < 64
    ensures Follows(n)
  {
    Follow0();
    Follow1();
    Follow2();
    Follow3();
    Follow4();
    Follow5();
    Follow6();
    Follow7();
  }

  lemma {:induction false} RowsNear(s: nat -> real, c: nat -> real, n: nat)
    requires Sines(s, c) && n <= 64
    ensures Near(s(n), Row(n).0, Err(n)) && Near(c(n), Row(n).1, Err(n))
  {
    if n == 0 {
      RowZero();
    } else {
      hide Row, Sines, Err;
      RowsNear(s, c, n - 1);
      NextNear(s, c, n - 1);
    }
  }

  lemma NextNear(s: nat -> real, c: nat -> real, n: nat)
    requires Sines(s, c) && n < 64 && Near(s(n), Row(n).0, Err(n)) && Near(c(n), Row(n).1, Err(n))
    ensures Near(s(n + 1), Row(n + 1).0, Err(n + 1)) && Near(c(n + 1), Row(n + 1).1, Err(n + 1))
  {
    hide Row, Sines, Err, Mul, Near;
    AllFollow(n);
    OneNear(s, c);
    ErrStep(n);
    Addition(s, c, n);
    NextRow(s(n), c(n), s(1), c(1), n);
  }

  lemma Addition(s: nat -> real, c: nat -> real, n: nat)
    requires Sines(s, c)
    ensures s(n + 1) == Mul(s(n), c(1)) + Mul(c(n), s(1)) && c(n + 1) == Mul(c(n), c(1)) - Mul(s(n), s(1))
  {
    assert Adds(s, c, n);
  }

  lemma NextRow(x: real, y: real, x1: real, y1: real, n: nat)
    requires Near(x, Row(n).0, Err(n)) && Near(y, Row(n).1, Err(n)) && Follows(n)
    requires Near(x1, Row(1).0, STEP_ERROR) && Near(y1, Row(1).1, STEP_ERROR)
    requires 0.84 < Row(1).0 < 0.842 && 0.54 < Row(1).1 < 0.541
    requires Err(n + 1) == 1.5 * Err(n) && Err(n) >= 0.000000000000000000000005
    ensures Near(Mul(x, y1) + Mul(y, x1), Row(n + 1).0, Err(n + 1))
    ensures Near(Mul(y, y1) - Mul(x, x1), Row(n + 1).1, Err(n + 1))
  {
    hide Row, Err, Mul;
    Turned(x, y, x1, y1, Row(n), Row(1), Err(n));
  }

  lemma RowZero()
    ensures Row(0) == (0.0, 1.0)
  {}

  lemma OneNear(s: nat -> real, c: nat -> real)
    requires Sines(s, c)
    ensures Near(s(1), Row(1).0, STEP_ERROR) && Near(c(1), Row(1).1, STEP_ERROR)
    ensures 0.84 < Row(1).0 < 0.842 && 0.54 < Row(1).1 < 0.541
  {
    SinAtOne();
    CosAtOne();
  }

  lemma ErrStep(n: nat)
    ensures Err(n + 1) == 1.5 * Err(n) && Err(n) >= Err(0) == 0.000000000000000000000005
  {
    if n > 0 { ErrStep(n - 1); }
  }

  function Mul(x: real, y: real): real { x * y }

  lemma Expand(x: real, y: real, a: real, b: real)
    ensures Mul(x, y) - Mul(a, b) == Mul(x - a, y) + Mul(a, y - b)
  {}

  lemma NonNegative(x: real, y: real)
    requires x >= 0.0 && y >= 0.0
    ensures Mul(x, y) >= 0.0
  {}

  lemma FourProducts(u: real, v: real, e: real, k: real)
    ensures Mul(e - u, k + v) + Mul(e + u, k - v) == 2.0 * Mul(e, k) - 2.0 * Mul(u, v)
    ensures Mul(e - u, k - v) + Mul(e + u, k + v) == 2.0 * Mul(e, k) + 2.0 * Mul(u, v)
  {}

  lemma Bounded(u: real, v: real, e: real, k: real)
    requires Near(u, 0.0, e) && Near(v, 0.0, k)
    ensures Near(Mul(u, v), 0.0, Mul(e, k))
  {
    hide Mul;
    NonNegative(e - u, k + v);
    NonNegative(e + u, k - v);
    NonNegative(e - u, k - v);
    NonNegative(e + u, k + v);
    FourProducts(u, v, e, k);
  }

  lemma Scaled(e: real, d: real)
    ensures Mul(e, 0.5411) == 0.5411 * e && Mul(e, 0.8421) == 0.8421 * e && Mul(1.0, d) == d
  {}

  lemma Product(x: real, y: real, a: real, b: real, e: real, d: real, k: real)
    requires Near(x, a, e) && Near(y, b, d) && -1.0 <= a <= 1.0 && -k <= y <= k
    ensures Near(Mul(x, y), Mul(a, b), Mul(e, k) + Mul(1.0, d))
  {
    hide Mul;
    Expand(x, y, a, b);
    Bounded(x - a, y, e, k);
    Bounded(a, y - b, 1.0, d);
  }

  lemma Together(p: real, q: real, a: real, b: real, e: real, d: real)
    requires Near(p, a, 0.5411 * e + d) && Near(q, b, 0.8421 * e + d) && d > 0.0 && e >= 100.0 * d
    ensures Near(p + q, a + b, 1.5 * e - d) && Near(p - q, a - b, 1.5 * e - d)
  {}

  /** One radian more: the error grows by less than half. */
  lemma Turned(x: real, y: real, x1: real, y1: real, r: (real, real), r1: (real, real), e: real)
    requires Near(x, r.0, e) && Near(y, r.1, e) && Near(x1, r1.0, STEP_ERROR) && Near(y1, r1.1, STEP_ERROR)
    requires -1.0 <= r.0 <= 1.0 && -1.0 <= r.1 <= 1.0 && e >= 0.000000000000000000000005
    requires 0.84 < r1.0 < 0.842 && 0.54 < r1.1 < 0.541
    ensures Near(Mul(x, y1) + Mul(y, x1), Mul(r.0, r1.1) + Mul(r.1, r1.0), 1.5 * e - STEP_ERROR)
    ensures Near(Mul(y, y1) - Mul(x, x1), Mul(r.1, r1.1) - Mul(r.0, r1.0), 1.5 * e - STEP_ERROR)
  {
    hide Mul;
    var d := STEP_ERROR;
    Scaled(e, d);
    Product(x, y1, r.0, r1.1, e, d, 0.5411);
    Product(y, x1, r.1, r1.0, e, d, 0.8421);
    Product(y, y1, r.1, r1.1, e, d, 0.5411);
    Product(x, x1, r.0, r1.0, e, d, 0.8421);
    Together(Mul(x, y1), Mul(y, x1), Mul(r.0, r1.1), Mul(r.1, r1.0), e, d);
    Together(Mul(y, y1), Mul(x, x1), Mul(r.1, r1.1), Mul(r.0, r1.0), e, d);
  }

  ghost predicate Fits(i: nat) {
    T(i) as real + 0.01 <= 4294967296.0 * Abs(Row(i + 1).0) <= T(i) as real + 0.99
  }

  lemma Fit0()
    ensures forall i :: 0 <= i < 4 ==> Fits(i)
  {
    assert Fits(0);
    assert Fits(1);
    assert Fits(2);
    assert Fits(3);
  }

  lemma Fit1()
    ensures forall i :: 4 <= i < 8 ==> Fits(i)
  {
    assert Fits(4);
    assert Fits(5);
    assert Fits(6);
    assert Fits(7);
  }

  lemma Fit2()
    ensures forall i :: 8 <= i < 12 ==> Fits(i)
  {
    assert Fits(8);
    assert Fits(9);
    assert Fits(10);
    assert Fits(11);
  }

  lemma Fit3()
    ensures forall i :: 12 <= i < 16 ==> Fits(i)
  {
    assert Fits(12);
    assert Fits(13);
    assert Fits(14);
    assert Fits(15);
  }

  lemma Fit4()
    ensures forall i :: 16 <= i < 20 ==> Fits(i)
  {
    assert Fits(16);
    assert Fits(17);
    assert Fits(18);
    assert Fits(19);
  }

  lemma Fit5()
    ensures forall i :: 20 <= i < 24 ==> Fits(i)
  {
    assert Fits(20);
    assert Fits(21);
    assert Fits(22);
    assert Fits(23);
  }

  lemma Fit6()
    ensures forall i :: 24 <= i < 28 ==> Fits(i)
  {
    assert Fits(24);
    assert Fits(25);
    assert Fits(26);
    assert Fits(27);
  }

  lemma Fit7()
    ensures forall i :: 28 <= i < 32 ==> Fits(i)
  {
    assert Fits(28);
    assert Fits(29);
    assert Fits(30);
    assert Fits(31);
  }

  lemma Fit8()
    ensures forall i :: 32 <= i < 36 ==> Fits(i)
  {
    assert Fits(32);
    assert Fits(33);
    assert Fits(34);
    assert Fits(35);
  }

  lemma Fit9()
    ensures forall i :: 36 <= i < 40 ==> Fits(i)
  {
    assert Fits(36);
    assert Fits(37);
    assert Fits(38);
    assert Fits(39);
  }

  lemma Fit10()
    ensures forall i :: 40 <= i < 44 ==> Fits(i)
  {
    assert Fits(40);
    assert Fits(41);
    assert Fits(42);
    assert Fits(43);
  }

  lemma Fit11()
    ensures forall i :: 44 <= i < 48 ==> Fits(i)
  {
    assert Fits(44);
    assert Fits(45);
    assert Fits(46);
    assert Fits(47);
  }

  lemma Fit12()
    ensures forall i :: 48 <= i < 52 ==> Fits(i)
  {
    assert Fits(48);
    assert Fits(49);
    assert Fits(50);
    assert Fits(51);
  }

  lemma Fit13()
    ensures forall i :: 52 <= i < 56 ==> Fits(i)
  {
    assert Fits(52);
    assert Fits(53);
    assert Fits(54);
    assert Fits(55);
  }

  lemma Fit14()
    ensures forall i :: 56 <= i < 60 ==> Fits(i)
  {
    assert Fits(56);
    assert Fits(57);
    assert Fits(58);
    assert Fits(59);
  }

  lemma Fit15()
    ensures forall i :: 60 <= i < 64 ==> Fits(i)
  {
    assert Fits(60);
    assert Fits(61);
    assert Fits(62);
    assert Fits(63);
  }

  lemma AllFit(i: nat)
    requires i < 64
    ensures Fits(i)
  {
    Fit0();
    Fit1();
    Fit2();
    Fit3();
    Fit4();
    Fit5();
    Fit6();
    Fit7();
    Fit8();
    Fit9();
    Fit10();
    Fit11();
    Fit12();
    Fit13();
    Fit14();
    Fit15();
  }

  lemma {:induction false} ErrGrows(n: nat, m: nat)
    requires n <= m
    ensures Err(n) <= Err(m)
  {
    if n < m { ErrGrows(n, m - 1); }
  }

  lemma ErrEight(n: nat)
    ensures Err(n + 8) <= 25.63 * Err(n)
  {
    assert Err(n + 2) == 2.25 * Err(n);
    assert Err(n + 4) == 2.25 * Err(n + 2);
    assert Err(n + 6) == 2.25 * Err(n + 4);
    assert Err(n + 8) == 2.25 * Err(n + 6);
  }

  lemma ErrSmall(n: nat)
    requires n <= 64
    ensures Err(n) <= 0.000000000001
  {
    ErrGrows(n, 64);
    ErrEight(0);
    ErrEight(8);
    ErrEight(16);
    ErrEight(24);
    ErrEight(32);
    ErrEight(40);
    ErrEight(48);
    ErrEight(56);
  }

  /** Element i + 1 of the table is the integer part of 4294967296 times abs(sin(i + 1)), i + 1 in radians. */
  lemma SineTable(s: nat -> real, c: nat -> real, i: nat)
    requires Sines(s, c) && i < 64
    ensures T(i) as real <= 4294967296.0 * Abs(s(i + 1)) < T(i) as real + 1.0
  {
    hide Row, T, Err, Sines;
    RowsNear(s, c, i + 1);
    ErrSmall(i + 1);
    AllFit(i);
  }
}
