/*
 * A worked generation on a 4 x 4 torus: the 2 x 2 block is a still life.
 * Every block cell has three live neighbours and survives with its own hue
 * (survival never mixes); every other cell has at most two and stays dead.
 */
module CgolBlock {
  import opened CgolRules

  /** Rows 1-2, columns 1-2 alive with four different hues; the rest dead. */
  const Block: seq<Cell> := [
    Dead, Dead,      Dead,      Dead,
    Dead, Alive(10), Alive(20), Dead,
    Dead, Alive(30), Alive(40), Dead,
    Dead, Dead,      Dead,      Dead]

  lemma TopRowStaysDead(mean: seq<Hue> -> Hue)
    ensures NextCell(Block, 4, 4, 0, 0, mean) == Dead
    ensures NextCell(Block, 4, 4, 0, 1, mean) == Dead
    ensures NextCell(Block, 4, 4, 0, 2, mean) == Dead
    ensures NextCell(Block, 4, 4, 0, 3, mean) == Dead
  {
    Survey(Block, 4, 4, 0, 0);
    Survey(Block, 4, 4, 0, 1);
    Survey(Block, 4, 4, 0, 2);
    Survey(Block, 4, 4, 0, 3);
  }

  lemma SecondRowIsStill(mean: seq<Hue> -> Hue)
    ensures NextCell(Block, 4, 4, 1, 0, mean) == Dead
    ensures NextCell(Block, 4, 4, 1, 1, mean) == Alive(10)
    ensures NextCell(Block, 4, 4, 1, 2, mean) == Alive(20)
    ensures NextCell(Block, 4, 4, 1, 3, mean) == Dead
  {
    Survey(Block, 4, 4, 1, 0);
    Survey(Block, 4, 4, 1, 1);
    Survey(Block, 4, 4, 1, 2);
    Survey(Block, 4, 4, 1, 3);
  }

  lemma ThirdRowIsStill(mean: seq<Hue> -> Hue)
    ensures NextCell(Block, 4, 4, 2, 0, mean) == Dead
    ensures NextCell(Block, 4, 4, 2, 1, mean) == Alive(30)
    ensures NextCell(Block, 4, 4, 2, 2, mean) == Alive(40)
    ensures NextCell(Block, 4, 4, 2, 3, mean) == Dead
  {
    Survey(Block, 4, 4, 2, 0);
    Survey(Block, 4, 4, 2, 1);
    Survey(Block, 4, 4, 2, 2);
    Survey(Block, 4, 4, 2, 3);
  }

  lemma BottomRowStaysDead(mean: seq<Hue> -> Hue)
    ensures NextCell(Block, 4, 4, 3, 0, mean) == Dead
    ensures NextCell(Block, 4, 4, 3, 1, mean) == Dead
    ensures NextCell(Block, 4, 4, 3, 2, mean) == Dead
    ensures NextCell(Block, 4, 4, 3, 3, mean) == Dead
  {
    Survey(Block, 4, 4, 3, 0);
    Survey(Block, 4, 4, 3, 1);
    Survey(Block, 4, 4, 3, 2);
    Survey(Block, 4, 4, 3, 3);
  }

  /** One tick leaves the block exactly as it was, hues included. */
  lemma BlockIsStillLife(mean: seq<Hue> -> Hue)
    ensures NextGeneration(Block, 4, 4, mean) == Block
  {
    TopRowStaysDead(mean);
    SecondRowIsStill(mean);
    ThirdRowIsStill(mean);
    BottomRowStaysDead(mean);
    NextGenerationAt(Block, 4, 4, 0, 0, mean);
    NextGenerationAt(Block, 4, 4, 0, 1, mean);
    NextGenerationAt(Block, 4, 4, 0, 2, mean);
    NextGenerationAt(Block, 4, 4, 0, 3, mean);
    NextGenerationAt(Block, 4, 4, 1, 0, mean);
    NextGenerationAt(Block, 4, 4, 1, 1, mean);
    NextGenerationAt(Block, 4, 4, 1, 2, mean);
    NextGenerationAt(Block, 4, 4, 1, 3, mean);
    NextGenerationAt(Block, 4, 4, 2, 0, mean);
    NextGenerationAt(Block, 4, 4, 2, 1, mean);
    NextGenerationAt(Block, 4, 4, 2, 2, mean);
    NextGenerationAt(Block, 4, 4, 2, 3, mean);
    NextGenerationAt(Block, 4, 4, 3, 0, mean);
    NextGenerationAt(Block, 4, 4, 3, 1, mean);
    NextGenerationAt(Block, 4, 4, 3, 2, mean);
    NextGenerationAt(Block, 4, 4, 3, 3, mean);
    SameSixteen(NextGeneration(Block, 4, 4, mean), Block);
  }

  lemma SameSixteen(a: seq<Cell>, b: seq<Cell>)
    requires |a| == |b| == 16
    requires a[0] == b[0] && a[1] == b[1] && a[2] == b[2] && a[3] == b[3]
    requires a[4] == b[4] && a[5] == b[5] && a[6] == b[6] && a[7] == b[7]
    requires a[8] == b[8] && a[9] == b[9] && a[10] == b[10] && a[11] == b[11]
    requires a[12] == b[12] && a[13] == b[13] && a[14] == b[14] && a[15] == b[15]
    ensures a == b
  {
  }
}
