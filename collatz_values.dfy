/** Reference values of the stopping time. Those of 0 and 1 come from the
    early return; those of 2, 3 and 27 are obtained by walking the sequence
    of the start value backwards from 1 with the step recurrence. */
module CollatzValues {
  import opened Collatz

  /** Reference values: 0 and 1 take no steps, 2 takes 1, 3 takes 7 and 27 takes 111. */
  lemma KnownValues()
    ensures Defined(0) && StoppingTime(0) == 0
    ensures Defined(1) && StoppingTime(1) == 0
    ensures Defined(2) && StoppingTime(2) == 1
    ensures Defined(3) && StoppingTime(3) == 7
    ensures Defined(27) && StoppingTime(27) == 111
  {
    Known(0, 0);
    Known(1, 0);
    KnownTwo();
    KnownThree();
    KnownTwentySeven();
  }

  /** One step back along a sequence: if the successor of `n` takes `k` steps
      to 1, then `n` takes k + 1. */
  lemma StepBack(n: nat, m: nat, k: nat)
    requires n >= 2 && Step(n) == m && IsStoppingTime(m, k)
    ensures IsStoppingTime(n, k + 1)
  {
    Recurrence(n, k + 1);
  }

  /** 2 reaches 1 in one halving. */
  lemma KnownTwo()
    ensures Defined(2) && StoppingTime(2) == 1
  {
    StepBack(2, 1, 0);
    Known(2, 1);
  }

  /** 3 runs 3, 10, 5, 16, 8, 4, 2, 1. */
  lemma KnownThree()
    ensures Defined(3) && StoppingTime(3) == 7
  {
    StepBack(2, 1, 0);
    StepBack(4, 2, 1);
    StepBack(8, 4, 2);
    StepBack(16, 8, 3);
    StepBack(5, 16, 4);
    StepBack(10, 5, 5);
    StepBack(3, 10, 6);
    Known(3, 7);
  }

  /** 27 takes 111 steps. */
  lemma KnownTwentySeven()
    ensures Defined(27) && StoppingTime(27) == 111
  {
    Trajectory27();
    Known(27, 111);
  }

  /** The sequence from 27 first reaches 1 after 111 steps. The parts below
      walk it back from 1, one step per line, 28 steps per part; the first
      27 steps of the sequence are walked here. */
  lemma Trajectory27()
    ensures IsStoppingTime(27, 111)
  {
    Trajectory27Part3();
    StepBack(155, 466, 84);
    StepBack(310, 155, 85);
    StepBack(103, 310, 86);
    StepBack(206, 103, 87);
    StepBack(412, 206, 88);
    StepBack(137, 412, 89);
    StepBack(274, 137, 90);
    StepBack(91, 274, 91);
    StepBack(182, 91, 92);
    StepBack(364, 182, 93);
    StepBack(121, 364, 94);
    StepBack(242, 121, 95);
    StepBack(484, 242, 96);
    StepBack(161, 484, 97);
    StepBack(322, 161, 98);
    StepBack(107, 322, 99);
    StepBack(214, 107, 100);
    StepBack(71, 214, 101);
    StepBack(142, 71, 102);
    StepBack(47, 142, 103);
    StepBack(94, 47, 104);
    StepBack(31, 94, 105);
    StepBack(62, 31, 106);
    StepBack(124, 62, 107);
    StepBack(41, 124, 108);
    StepBack(82, 41, 109);
    StepBack(27, 82, 110);
  }

  /** Steps 83 to 111 of the sequence from 27, counted back from 1. */
  lemma Trajectory27Part1()
    ensures IsStoppingTime(866, 28)
  {
    StepBack(2, 1, 0);
    StepBack(4, 2, 1);
    StepBack(8, 4, 2);
    StepBack(16, 8, 3);
    StepBack(5, 16, 4);
    StepBack(10, 5, 5);
    StepBack(20, 10, 6);
    StepBack(40, 20, 7);
    StepBack(80, 40, 8);
    StepBack(160, 80, 9);
    StepBack(53, 160, 10);
    StepBack(106, 53, 11);
    StepBack(35, 106, 12);
    StepBack(70, 35, 13);
    StepBack(23, 70, 14);
    StepBack(46, 23, 15);
    StepBack(92, 46, 16);
    StepBack(184, 92, 17);
    StepBack(61, 184, 18);
    StepBack(122, 61, 19);
    StepBack(244, 122, 20);
    StepBack(488, 244, 21);
    StepBack(976, 488, 22);
    StepBack(325, 976, 23);
    StepBack(650, 325, 24);
    StepBack(1300, 650, 25);
    StepBack(433, 1300, 26);
    StepBack(866, 433, 27);
  }

  /** Steps 55 to 83 of the sequence from 27, counted back from 1. */
  lemma Trajectory27Part2()
    ensures IsStoppingTime(638, 56)
  {
    Trajectory27Part1();
    StepBack(1732, 866, 28);
    StepBack(577, 1732, 29);
    StepBack(1154, 577, 30);
    StepBack(2308, 1154, 31);
    StepBack(4616, 2308, 32);
    StepBack(9232, 4616, 33);
    StepBack(3077, 9232, 34);
    StepBack(6154, 3077, 35);
    StepBack(2051, 6154, 36);
    StepBack(4102, 2051, 37);
    StepBack(1367, 4102, 38);
    StepBack(2734, 1367, 39);
    StepBack(911, 2734, 40);
    StepBack(1822, 911, 41);
    StepBack(3644, 1822, 42);
    StepBack(7288, 3644, 43);
    StepBack(2429, 7288, 44);
    StepBack(4858, 2429, 45);
    StepBack(1619, 4858, 46);
    StepBack(3238, 1619, 47);
    StepBack(1079, 3238, 48);
    StepBack(2158, 1079, 49);
    StepBack(719, 2158, 50);
    StepBack(1438, 719, 51);
    StepBack(479, 1438, 52);
    StepBack(958, 479, 53);
    StepBack(319, 958, 54);
    StepBack(638, 319, 55);
  }

  /** Steps 27 to 55 of the sequence from 27, counted back from 1. */
  lemma Trajectory27Part3()
    ensures IsStoppingTime(466, 84)
  {
    Trajectory27Part2();
    StepBack(1276, 638, 56);
    StepBack(425, 1276, 57);
    StepBack(850, 425, 58);
    StepBack(283, 850, 59);
    StepBack(566, 283, 60);
    StepBack(1132, 566, 61);
    StepBack(377, 1132, 62);
    StepBack(754, 377, 63);
    StepBack(251, 754, 64);
    StepBack(502, 251, 65);
    StepBack(167, 502, 66);
    StepBack(334, 167, 67);
    StepBack(668, 334, 68);
    StepBack(1336, 668, 69);
    StepBack(445, 1336, 70);
    StepBack(890, 445, 71);
    StepBack(1780, 890, 72);
    StepBack(593, 1780, 73);
    StepBack(1186, 593, 74);
    StepBack(395, 1186, 75);
    StepBack(790, 395, 76);
    StepBack(263, 790, 77);
    StepBack(526, 263, 78);
    StepBack(175, 526, 79);
    StepBack(350, 175, 80);
    StepBack(700, 350, 81);
    StepBack(233, 700, 82);
    StepBack(466, 233, 83);
  }

  /** A start value whose stopping time is known is defined, and the stopping
    time function agrees with it. */
  lemma Known(n: nat, k: nat)
    requires IsStoppingTime(n, k)
    ensures Defined(n) && StoppingTime(n) == k
  {
    if n > 1 {
      assert Iterate(n, k) == 1;
    }
    StoppingTimeSpec(n);
    StoppingTimeUnique(n, k, StoppingTime(n));
  }
}
