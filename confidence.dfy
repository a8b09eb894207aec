/** The confidence-score helpers: a colour and a face on five inclusive
    bands, and a chip on three exclusive bands. Scores are whole numbers here. */
module Confidence {

  /** The upper ends of the first four colour and face bands (inclusive). */
  const ColorLimits: seq<int> := [20, 40, 60, 80]

  /** The lower ends of the second and third chip bands (inclusive). */
  const ChipLimits: seq<int> := [40, 70]

  const Colors: seq<string> := ["#ef4444", "#f97316", "#facc15", "#a3e635", "#22c55e"]

  /** 😡 😕 😐 🙂 😄, one code point each. */
  const Faces: seq<string> := ["\U{1F621}", "\U{1F615}", "\U{1F610}", "\U{1F642}", "\U{1F604}"]

  /** How many of the limits lie strictly below the score: the index of the
      band the score falls in when each band includes its upper limit. */
  function Above(score: int, limits: seq<int>): (n: nat)
    ensures n <= |limits|
  {
    if limits == [] then 0
    else (if limits[0] < score then 1 else 0) + Above(score, limits[1..])
  }

  /** How many of the limits lie at or below the score: the band index when
      each band starts at its limit. */
  function Reached(score: int, limits: seq<int>): (n: nat)
    ensures n <= |limits|
  {
    if limits == [] then 0
    else (if limits[0] <= score then 1 else 0) + Reached(score, limits[1..])
  }

  function ColorBand(score: int): nat { Above(score, ColorLimits) }

  function ChipBand(score: int): nat { Reached(score, ChipLimits) }

  /** `scoreToColor`: the colour of the score's band. */
  function ScoreToColor(score: int): string {
    if score <= 20 then "#ef4444"
    else if score <= 40 then "#f97316"
    else if score <= 60 then "#facc15"
    else if score <= 80 then "#a3e635"
    else "#22c55e"
  }

  /** `scoreToFace`: the face of the score's band. */
  function ScoreToFace(score: int): string {
    if score <= 20 then "\U{1F621}"
    else if score <= 40 then "\U{1F615}"
    else if score <= 60 then "\U{1F610}"
    else if score <= 80 then "\U{1F642}"
    else "\U{1F604}"
  }

  /** What `scoreToChip` returns: the chip text (`caption`, as `label` is a
      Dafny keyword) and its CSS classes. */
  datatype Chip = Chip(caption: string, className: string)

  const Chips: seq<Chip> := [
    Chip("Rojo", "bg-red-100 text-red-600"),
    Chip("\U{C1}mbar", "bg-yellow-100 text-yellow-700"),
    Chip("Verde", "bg-green-100 text-green-600")]

  /** `scoreToChip`: the chip label of the score's band. */
  function ScoreToChip(score: int): Chip {
    if score < 40 then Chip("Rojo", "bg-red-100 text-red-600")
    else if score < 70 then Chip("\U{C1}mbar", "bg-yellow-100 text-yellow-700")
    else Chip("Verde", "bg-green-100 text-green-600")
  }

  lemma {:induction false} AboveMonotone(a: int, b: int, limits: seq<int>)
    requires a <= b
    ensures Above(a, limits) <= Above(b, limits)
  {
    if limits != [] {
      AboveMonotone(a, b, limits[1..]);
    }
  }

  lemma {:induction false} ReachedMonotone(a: int, b: int, limits: seq<int>)
    requires a <= b
    ensures Reached(a, limits) <= Reached(b, limits)
  {
    if limits != [] {
      ReachedMonotone(a, b, limits[1..]);
    }
  }

  lemma ColorBandValues(score: int)
    ensures ColorBand(score) == (if score <= 20 then 0 else if score <= 40 then 1
                                 else if score <= 60 then 2 else if score <= 80 then 3 else 4)
  {
    var l1, l2, l3, l4 := ColorLimits[1..], ColorLimits[2..], ColorLimits[3..], ColorLimits[4..];
    assert l1 == [40, 60, 80] && l1[1..] == l2 && l2 == [60, 80] && l2[1..] == l3 && l3 == [80] && l3[1..] == l4 && l4 == [];
    assert Above(score, l3) == (if 80 < score then 1 else 0);
    assert Above(score, l2) == (if 60 < score then 1 else 0) + Above(score, l3);
    assert Above(score, l1) == (if 40 < score then 1 else 0) + Above(score, l2);
  }

  lemma ChipBandValues(score: int)
    ensures ChipBand(score) == (if score < 40 then 0 else if score < 70 then 1 else 2)
  {
    var l1 := ChipLimits[1..];
    assert l1 == [70] && l1[1..] == [];
    assert Reached(score, l1) == (if 70 <= score then 1 else 0);
  }

  /** The colour is the one of the band the score falls in: red up to 20,
      orange up to 40, yellow up to 60, lime up to 80, green above. */
  lemma ColorByBand(score: int)
    ensures ColorBand(score) < 5 && ScoreToColor(score) == Colors[ColorBand(score)]
  {
    ColorBandValues(score);
  }

  /** The face follows the same five inclusive bands. */
  lemma FaceByBand(score: int)
    ensures ColorBand(score) < 5 && ScoreToFace(score) == Faces[ColorBand(score)]
  {
    ColorBandValues(score);
  }

  /** The chip is 'Rojo' below 40, 'Ámbar' below 70 and 'Verde' from 70. */
  lemma ChipByBand(score: int)
    ensures ChipBand(score) < 3 && ScoreToChip(score) == Chips[ChipBand(score)]
  {
    ChipBandValues(score);
  }

  /** The face and the colour always name the same band. */
  lemma FaceAgreesWithColor(score: int, k: nat)
    requires k < 5
    ensures ScoreToFace(score) == Faces[k] <==> ScoreToColor(score) == Colors[k]
  {
    ColorByBand(score);
    FaceByBand(score);
    var b := ColorBand(score);
    if b != k {
      assert Faces[0][0] == '\U{1F621}' && Faces[1][0] == '\U{1F615}' && Faces[2][0] == '\U{1F610}';
      assert Faces[3][0] == '\U{1F642}' && Faces[4][0] == '\U{1F604}';
      assert Colors[0][2] == 'f' && Colors[1][2] == '9' && Colors[2][2] == 'a' && Colors[3][2] == '3' && Colors[4][2] == '2';
      assert Faces[b][0] != Faces[k][0] && Colors[b][2] != Colors[k][2];
    }
  }

  /** A higher score never falls in an earlier band, for all three helpers. */
  lemma BandsMonotone(a: int, b: int)
    requires a <= b
    ensures ColorBand(a) <= ColorBand(b)
    ensures ChipBand(a) <= ChipBand(b)
  {
    AboveMonotone(a, b, ColorLimits);
    ReachedMonotone(a, b, ChipLimits);
  }

  /** At 40 the colour and face bands are inclusive and the chip band
      exclusive: 40 is orange, yet its chip is already 'Ámbar'; 20 < s < 40 is
      orange with a 'Rojo' chip. */
  lemma BoundaryMismatch(score: int)
    ensures ScoreToColor(40) == "#f97316" && ScoreToChip(40).caption == "\U{C1}mbar"
    ensures 20 < score < 40 ==> ScoreToColor(score) == "#f97316" && ScoreToChip(score).caption == "Rojo"
  {
  }
}
