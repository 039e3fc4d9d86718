/** Score, cleared-line count and level, and the automatic-descent interval. */
module Scoring {

  /** Points for clearing `n` rows with one lock: 100, 300, 500 and 800 for one
      to four rows, 200 per row for any other count. */
  function LinePoints(n: nat): (p: nat)
    ensures n == 1 ==> p == 100
    ensures n == 2 ==> p == 300
    ensures n == 3 ==> p == 500
    ensures n == 4 ==> p == 800
    ensures n > 4 ==> p == n * 200
    ensures n == 0 ==> p == 0
  {
    match n
    case 1 => 100
    case 2 => 300
    case 3 => 500
    case 4 => 800
    case _ => n * 200
  }

  /** Clearing more rows at once always pays more, and at least 100 a row. */
  lemma LinePointsIncrease(n: nat, m: nat)
    requires 0 < n < m
    ensures 100 * n <= LinePoints(n) < LinePoints(m)
  {
  }

  /** The level reached after `lines` cleared rows: one more every ten rows. */
  function LevelFor(lines: nat): (level: nat)
    ensures level >= 1
    ensures (level - 1) * 10 <= lines < level * 10
  {
    lines / 10 + 1
  }

  /** The score, the number of cleared rows and the level of a session. */
  datatype Progress = Progress(score: nat, lines: nat, level: nat)

  /** The starting progress of a session. */
  const Initial: Progress := Progress(0, 0, 1)

  /** The effect of one lock that cleared `n` rows. */
  function Credit(p: Progress, n: nat): (q: Progress)
    ensures n == 0 ==> q == p
    ensures n > 0 ==> q.score == p.score + LinePoints(n)
    ensures q.lines == p.lines + n
    ensures q.level >= p.level && q.level >= (if n == 0 then p.level else LevelFor(q.lines))
    ensures q.level == p.level || q.level == LevelFor(q.lines)
  {
    if n == 0 then p
    else
      var lines := p.lines + n;
      var newLevel := LevelFor(lines);
      Progress(p.score + LinePoints(n), lines, if newLevel > p.level then newLevel else p.level)
  }

  /** When the level matches the cleared rows it keeps matching them: the level
      is always `lines / 10 + 1`. */
  lemma CreditKeepsLevel(p: Progress, n: nat)
    requires p.level == LevelFor(p.lines)
    ensures Credit(p, n).level == LevelFor(Credit(p, n).lines)
  {
  }

  /** The descent interval at a level: `base` shortened by 40 ms a level above
      the first, never below 80 ms. */
  function EffectiveInterval(base: int, level: int): (ms: int)
    ensures ms >= 80
    ensures ms >= base - (level - 1) * 40
    ensures ms == 80 || ms == base - (level - 1) * 40
  {
    var shortened := base - (level - 1) * 40;
    if shortened > 80 then shortened else 80
  }

  /** A higher level never descends more slowly. */
  lemma IntervalShrinks(base: int, level: int, level': int)
    requires level <= level'
    ensures EffectiveInterval(base, level') <= EffectiveInterval(base, level)
  {
  }
}
