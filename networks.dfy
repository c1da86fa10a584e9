/**
 * The network objects of SnakeAI/NeuralNetwork.cs that the training loop
 * relies on: layer shapes, copying, fitness comparison and weight mutation.
 * `float` weights and fitness are modelled as `real`; every `NextSingle()`
 * draw is a parameter in [0, 1).
 */
module Networks {
  import opened Wrappers
  import opened WeightFile

  // ---- mutation of one weight --------------------------------------------

  /** The four mutation kinds of `Layer.Mutate`, plus leaving the weight alone. */
  datatype MutationClass = Negate | Replace | ScaleUp | ScaleDown | Keep

  /** The kind chosen for `roll` = `NextSingle() * 1000` (NeuralNetwork.cs:370-394). */
  function ClassOf(roll: real): (m: MutationClass)
    ensures m == Negate <==> roll <= 2.0
    ensures m == Replace <==> 2.0 < roll <= 4.0
    ensures m == ScaleUp <==> 4.0 < roll <= 6.0
    ensures m == ScaleDown <==> 6.0 < roll <= 8.0
    ensures m == Keep <==> 8.0 < roll
  {
    if roll <= 2.0 then Negate
    else if roll <= 4.0 then Replace
    else if roll <= 6.0 then ScaleUp
    else if roll <= 8.0 then ScaleDown
    else Keep
  }

  function Abs(x: real): real {
    if x < 0.0 then -x else x
  }

  /** The new value of weight `w` (NeuralNetwork.cs:366-395); `extra` is the
      second `NextSingle()` draw, used by every kind except negation. */
  function MutateWeight(w: real, roll: real, extra: real): (v: real)
    requires 0.0 <= extra < 1.0
    ensures ClassOf(roll) == Negate ==> v == -w
    ensures ClassOf(roll) == Replace ==> -1.0 <= v < 1.0
    ensures ClassOf(roll) == ScaleUp ==> Abs(v) >= Abs(w) && (v < 0.0 <==> w < 0.0)
    ensures ClassOf(roll) == ScaleDown ==> Abs(v) <= Abs(w) && (v > 0.0 ==> w > 0.0) && (v < 0.0 ==> w < 0.0)
    ensures ClassOf(roll) == Keep ==> v == w
  {
    match ClassOf(roll)
    case Negate => -w
    case Replace => (extra - 0.5) * 2.0
    case ScaleUp => ScaleBy(w, extra + 1.0)
    case ScaleDown => ScaleBy(w, extra)
    case Keep => w
  }

  /** `w * factor` for a non-negative factor: the size scales, the sign stays. */
  function ScaleBy(w: real, factor: real): (v: real)
    requires factor >= 0.0
    ensures factor >= 1.0 ==> Abs(v) >= Abs(w)
    ensures factor <= 1.0 ==> Abs(v) <= Abs(w)
    ensures v < 0.0 ==> w < 0.0
    ensures v > 0.0 ==> w > 0.0
    ensures factor > 0.0 && w < 0.0 ==> v < 0.0
  {
    ProductSigns(w, factor);
    ProductSigns(w, factor - 1.0);
    ProductSigns(w, 1.0 - factor);
    assert w * factor - w == w * (factor - 1.0);
    assert w - w * factor == w * (1.0 - factor);
    w * factor
  }

  /** The sign of a product. */
  lemma ProductSigns(a: real, b: real)
    ensures a >= 0.0 && b >= 0.0 ==> a * b >= 0.0
    ensures a <= 0.0 && b >= 0.0 ==> a * b <= 0.0
    ensures a >= 0.0 && b <= 0.0 ==> a * b <= 0.0
    ensures a <= 0.0 && b <= 0.0 ==> a * b >= 0.0
    ensures a < 0.0 && b > 0.0 ==> a * b < 0.0
  {
  }

  /** Out of 1000 equally wide slots only the first 8 change a weight. */
  lemma {:induction false} MutationIsRare(w: real, roll: real, extra: real)
    requires 0.0 <= extra < 1.0
    requires 8.0 < roll < 1000.0
    ensures MutateWeight(w, roll, extra) == w
  {
  }

  // ---- fitness comparison ------------------------------------------------

  /** The three-way comparison `CompareTo` makes on fitness. */
  function Compare(a: real, b: real): (c: int)
    ensures c == 1 <==> a > b
    ensures c == -1 <==> a < b
    ensures c == 0 <==> a == b
  {
    if a > b then 1 else if a < b then -1 else 0
  }

  /** The comparison is a total preorder consistent with `<=`. */
  lemma CompareIsConsistent(a: real, b: real, c: real)
    ensures Compare(a, b) == -Compare(b, a)
    ensures Compare(a, b) >= 0 && Compare(b, c) >= 0 ==> Compare(a, c) >= 0
  {
  }

  // ---- layers ------------------------------------------------------------

  /** `NeuralNetwork.Layer`: the weight matrix, `numberOfOutputs` rows of
      `numberOfInputs` columns. The buffers used by feed-forward and
      back-propagation are not part of this model. */
  class Layer {
    const numberOfInputs: int
    const numberOfOutputs: int
    const weights: array2<real>

    predicate Valid() {
      && 0 <= numberOfInputs <= IntMax && 0 <= numberOfOutputs <= IntMax
      && weights.Length0 == numberOfOutputs && weights.Length1 == numberOfInputs
    }

    /** `Layer(numberOfInputs, numberOfOutputs)` with `InitializeWeights`
        (NeuralNetwork.cs:269-282, 305-314): `draws[i][j]` is the
        `NextSingle()` for weight (i, j). */
    constructor (numberOfInputs: int, numberOfOutputs: int, draws: seq<seq<real>>)
      requires 0 <= numberOfInputs <= IntMax && 0 <= numberOfOutputs <= IntMax
      requires DrawsShaped(draws, numberOfOutputs, numberOfInputs)
      ensures Valid() && fresh(weights)
      ensures this.numberOfInputs == numberOfInputs && this.numberOfOutputs == numberOfOutputs
      ensures forall i, j :: 0 <= i < numberOfOutputs && 0 <= j < numberOfInputs ==>
                weights[i, j] == draws[i][j] - 0.5 && -0.5 <= weights[i, j] < 0.5
    {
      this.numberOfInputs := numberOfInputs;
      this.numberOfOutputs := numberOfOutputs;
      var w := new real[numberOfOutputs, numberOfInputs];
      var i := 0;
      while i < numberOfOutputs
        invariant 0 <= i <= numberOfOutputs
        invariant forall a, b :: 0 <= a < i && 0 <= b < numberOfInputs ==> w[a, b] == draws[a][b] - 0.5
      {
        var j := 0;
        while j < numberOfInputs
          invariant 0 <= j <= numberOfInputs
          invariant forall a, b :: 0 <= a < i && 0 <= b < numberOfInputs ==> w[a, b] == draws[a][b] - 0.5
          invariant forall b :: 0 <= b < j ==> w[i, b] == draws[i][b] - 0.5
        {
          w[i, j] := draws[i][j] - 0.5;
          j := j + 1;
        }
        i := i + 1;
      }
      weights := w;
    }

    /** The copy constructor `Layer(parent)` (NeuralNetwork.cs:288-303). */
    constructor Copy(parent: Layer)
      requires parent.Valid()
      ensures Valid() && fresh(weights)
      ensures numberOfInputs == parent.numberOfInputs && numberOfOutputs == parent.numberOfOutputs
      ensures SameWeights(weights, parent.weights)
    {
      numberOfInputs := parent.numberOfInputs;
      numberOfOutputs := parent.numberOfOutputs;
      var w := new real[parent.numberOfOutputs, parent.numberOfInputs];
      CopyWeights(parent.weights, w);
      weights := w;
    }

    /** `Mutate()` (NeuralNetwork.cs:361-397): weight (i, j) gets the kind
        picked by `rolls[i][j]` with the extra draw `extras[i][j]`. */
    method Mutate(rolls: seq<seq<real>>, extras: seq<seq<real>>)
      requires Valid()
      requires MutationDraws(rolls, extras, this)
      modifies weights
      ensures forall i, j :: 0 <= i < numberOfOutputs && 0 <= j < numberOfInputs ==>
                weights[i, j] == MutateWeight(old(weights[i, j]), rolls[i][j], extras[i][j])
      ensures Mutated(this, old(Cells(weights)), rolls, extras)
    {
      var i := 0;
      while i < numberOfOutputs
        invariant 0 <= i <= numberOfOutputs
        invariant forall a, b :: 0 <= a < i && 0 <= b < numberOfInputs ==>
                    weights[a, b] == MutateWeight(old(weights[a, b]), rolls[a][b], extras[a][b])
        invariant forall a, b :: i <= a < numberOfOutputs && 0 <= b < numberOfInputs ==>
                    weights[a, b] == old(weights[a, b])
      {
        var j := 0;
        while j < numberOfInputs
          invariant 0 <= j <= numberOfInputs
          invariant forall a, b :: 0 <= a < i && 0 <= b < numberOfInputs ==>
                      weights[a, b] == MutateWeight(old(weights[a, b]), rolls[a][b], extras[a][b])
          invariant forall b :: 0 <= b < j ==> weights[i, b] == MutateWeight(old(weights[i, b]), rolls[i][b], extras[i][b])
          invariant forall a, b :: (i < a < numberOfOutputs || (a == i && j <= b)) && 0 <= b < numberOfInputs ==>
                      weights[a, b] == old(weights[a, b])
        {
          var weight := weights[i, j];
          weight := MutateWeight(weight, rolls[i][j], extras[i][j]);
          weights[i, j] := weight;
          j := j + 1;
        }
        i := i + 1;
      }
    }
  }

  /** `draws` holds one value in [0, 1) per cell of a rows x cols matrix. */
  predicate DrawsShaped(draws: seq<seq<real>>, rows: int, cols: int) {
    && |draws| == rows
    && forall i :: 0 <= i < rows ==> |draws[i]| == cols && forall j :: 0 <= j < cols ==> 0.0 <= draws[i][j] < 1.0
  }

  /** One roll and one extra draw in [0, 1) per weight of `layer`. */
  predicate MutationDraws(rolls: seq<seq<real>>, extras: seq<seq<real>>, layer: Layer) {
    && |rolls| == layer.numberOfOutputs
    && (forall i :: 0 <= i < |rolls| ==> |rolls[i]| == layer.numberOfInputs)
    && DrawsShaped(extras, layer.numberOfOutputs, layer.numberOfInputs)
  }

  /** The cells of a matrix, row by row. */
  ghost function Cells(a: array2<real>): (m: seq<seq<real>>)
    reads a
    ensures |m| == a.Length0
    ensures forall i :: 0 <= i < a.Length0 ==> |m[i]| == a.Length1 && forall j :: 0 <= j < a.Length1 ==> m[i][j] == a[i, j]
  {
    seq(a.Length0, i requires 0 <= i < a.Length0 reads a => seq(a.Length1, j requires 0 <= j < a.Length1 reads a => a[i, j]))
  }

  /** Every weight of `layer` is the mutation of the matching cell of `before`. */
  ghost predicate Mutated(layer: Layer, before: seq<seq<real>>, rolls: seq<seq<real>>, extras: seq<seq<real>>)
    reads layer.weights
  {
    && layer.Valid() && MutationDraws(rolls, extras, layer)
    && |before| == layer.numberOfOutputs
    && (forall i :: 0 <= i < |before| ==> |before[i]| == layer.numberOfInputs)
    && forall i, j :: 0 <= i < layer.numberOfOutputs && 0 <= j < layer.numberOfInputs ==>
         layer.weights[i, j] == MutateWeight(before[i][j], rolls[i][j], extras[i][j])
  }

  /** Mutation draws for a network whose layer sizes are `sizes`. */
  predicate DrawsFit(rolls: seq<seq<seq<real>>>, extras: seq<seq<seq<real>>>, sizes: seq<int>) {
    && |sizes| >= 1 && |rolls| == |sizes| - 1 && |extras| == |rolls|
    && forall l :: 0 <= l < |rolls| ==>
         && |rolls[l]| == sizes[l + 1]
         && (forall i :: 0 <= i < |rolls[l]| ==> |rolls[l][i]| == sizes[l])
         && DrawsShaped(extras[l], sizes[l + 1], sizes[l])
  }

  /** Same shape and the same value in every cell. */
  ghost predicate SameWeights(a: array2<real>, b: array2<real>)
    reads a, b
  {
    && a.Length0 == b.Length0 && a.Length1 == b.Length1
    && forall i, j :: 0 <= i < a.Length0 && 0 <= j < a.Length1 ==> a[i, j] == b[i, j]
  }

  lemma SameWeightsSameCells(a: array2<real>, b: array2<real>)
    requires SameWeights(a, b)
    ensures Cells(a) == Cells(b)
  {
    forall i | 0 <= i < a.Length0
      ensures Cells(a)[i] == Cells(b)[i]
    {
    }
  }

  /** `Array.Copy(src, dst, src.Length)` between matrices of one shape. */
  method CopyWeights(src: array2<real>, dst: array2<real>)
    requires src != dst
    requires src.Length0 == dst.Length0 && src.Length1 == dst.Length1
    modifies dst
    ensures SameWeights(dst, src)
  {
    var i := 0;
    while i < src.Length0
      invariant 0 <= i <= src.Length0
      invariant forall a, b :: 0 <= a < i && 0 <= b < src.Length1 ==> dst[a, b] == src[a, b]
    {
      var j := 0;
      while j < src.Length1
        invariant 0 <= j <= src.Length1
        invariant forall a, b :: 0 <= a < i && 0 <= b < src.Length1 ==> dst[a, b] == src[a, b]
        invariant forall b :: 0 <= b < j ==> dst[i, b] == src[i, b]
      {
        dst[i, j] := src[i, j];
        j := j + 1;
      }
      i := i + 1;
    }
  }

  // ---- networks ----------------------------------------------------------

  /** The weight texts of a matrix, row by row. */
  function FormatRows(m: seq<seq<real>>, format: real -> string): (t: seq<seq<string>>)
    ensures |t| == |m| && forall i :: 0 <= i < |m| ==> |t[i]| == |m[i]| && forall j :: 0 <= j < |m[i]| ==> t[i][j] == format(m[i][j])
  {
    seq(|m|, i requires 0 <= i < |m| => seq(|m[i]|, j requires 0 <= j < |m[i]| => format(m[i][j])))
  }

  /** With a format that always yields a well-formed token, the formatted
      cells of a matrix fit its shape. */
  lemma FormattedRowsFit(a: array2<real>, format: real -> string)
    requires forall x :: WellFormedToken(format(x))
    ensures RowsFit(FormatRows(Cells(a), format), a.Length0, a.Length1)
  {
  }

  /** The row lines of one layer (NeuralNetwork.cs:214-222). */
  method WriteLayer(layer: Layer, format: real -> string) returns (rows: seq<string>)
    requires layer.Valid()
    ensures rows == RowLines(FormatRows(Cells(layer.weights), format))
  {
    ghost var text := FormatRows(Cells(layer.weights), format);
    var j := 0;
    rows := [];
    while j < layer.numberOfOutputs
      invariant 0 <= j <= layer.numberOfOutputs
      invariant rows == RowLines(text[..j])
    {
      var row := WriteRow(layer, j, format);
      RowLinesSnoc(text[..j], text[j]);
      assert text[..j + 1] == text[..j] + [text[j]];
      rows := rows + [row];
      j := j + 1;
    }
    assert text[..j] == text;
  }

  /** Row `j` of one layer: each weight's text and a space. */
  method WriteRow(layer: Layer, j: int, format: real -> string) returns (row: string)
    requires layer.Valid() && 0 <= j < layer.numberOfOutputs
    ensures row == RowText(FormatRows(Cells(layer.weights), format)[j])
  {
    ghost var text := FormatRows(Cells(layer.weights), format)[j];
    row := "";
    var k := 0;
    while k < layer.numberOfInputs
      invariant 0 <= k <= layer.numberOfInputs
      invariant row == RowText(text[..k])
    {
      RowTextSnoc(text[..k], format(layer.weights[j, k]));
      assert text[..k + 1] == text[..k] + [format(layer.weights[j, k])];
      row := row + format(layer.weights[j, k]) + " ";
      k := k + 1;
    }
    assert text[..k] == text;
  }

  /** The weight texts of each layer of `ls`. */
  ghost function BlocksOf(ls: seq<Layer>, format: real -> string): (b: seq<seq<seq<string>>>)
    reads set i | 0 <= i < |ls| :: ls[i].weights
    ensures |b| == |ls| && forall i :: 0 <= i < |ls| ==> b[i] == FormatRows(Cells(ls[i].weights), format)
  {
    if ls == [] then [] else [FormatRows(Cells(ls[0].weights), format)] + BlocksOf(ls[1..], format)
  }

  class NeuralNetwork {
    const layers: seq<Layer>
    var fitness: real

    /** Each layer is well formed, consecutive layers chain their sizes, and
        no two layers share a weight matrix. */
    predicate Valid() {
      && (forall i :: 0 <= i < |layers| ==> layers[i].Valid())
      && (forall i :: 0 <= i < |layers| - 1 ==> layers[i].numberOfOutputs == layers[i + 1].numberOfInputs)
      && (forall i, j :: 0 <= i < j < |layers| ==> layers[i].weights != layers[j].weights)
    }

    /** The layer-size list: every layer's input count, then the last layer's
        output count. */
    function Sizes(): (s: seq<int>)
      ensures |layers| == 0 ==> s == []
      ensures |layers| > 0 ==> |s| == |layers| + 1
      ensures forall i :: 0 <= i < |layers| ==> s[i] == layers[i].numberOfInputs
      ensures |layers| > 0 ==> s[|layers|] == layers[|layers| - 1].numberOfOutputs
    {
      if |layers| == 0 then [] else seq(|layers|, i requires 0 <= i < |layers| => layers[i].numberOfInputs) + [layers[|layers| - 1].numberOfOutputs]
    }

    /** Draws shaped after the layer sizes fit every layer. */
    lemma DrawsFitLayers(rolls: seq<seq<seq<real>>>, extras: seq<seq<seq<real>>>)
      requires Valid() && |layers| > 0 && DrawsFit(rolls, extras, Sizes())
      ensures |rolls| == |layers| && |extras| == |layers|
      ensures forall l :: 0 <= l < |layers| ==> MutationDraws(rolls[l], extras[l], layers[l])
    {
      var s := Sizes();
      forall l | 0 <= l < |layers|
        ensures s[l + 1] == layers[l].numberOfOutputs
      {
        if l < |layers| - 1 {
          assert layers[l].numberOfOutputs == layers[l + 1].numberOfInputs;
        }
      }
    }

    /** The set of the layers' weight matrices. */
    function Arrays(): set<array2<real>> {
      set i | 0 <= i < |layers| :: layers[i].weights
    }

    /** `NeuralNetwork(int[] layers)` (NeuralNetwork.cs:25-35); `draws[i]` are the
        initial draws of layer i. */
    constructor (sizes: seq<int>, draws: seq<seq<seq<real>>>)
      requires |sizes| >= 1 && forall i :: 0 <= i < |sizes| ==> 0 <= sizes[i] <= IntMax
      requires |draws| == |sizes| - 1
      requires forall i :: 0 <= i < |draws| ==> DrawsShaped(draws[i], sizes[i + 1], sizes[i])
      ensures Valid() && fitness == 0.0
      ensures |layers| == |sizes| - 1 && (|sizes| >= 2 ==> Sizes() == sizes)
      ensures forall i :: 0 <= i < |layers| ==> fresh(layers[i].weights)
    {
      var ls: seq<Layer> := [];
      var i := 0;
      while i < |sizes| - 1
        invariant 0 <= i <= |sizes| - 1 && |ls| == i
        invariant forall k :: 0 <= k < i ==> ls[k].Valid() && fresh(ls[k].weights)
        invariant forall k :: 0 <= k < i ==> ls[k].numberOfInputs == sizes[k] && ls[k].numberOfOutputs == sizes[k + 1]
        invariant forall k, l :: 0 <= k < l < i ==> ls[k].weights != ls[l].weights
      {
        var layer := new Layer(sizes[i], sizes[i + 1], draws[i]);
        ls := ls + [layer];
        i := i + 1;
      }
      layers := ls;
      fitness := 0.0;
    }

    /** The copy constructor `NeuralNetwork(parent)` (NeuralNetwork.cs:41-52):
        the same layers and weights, fitness reset to 0. */
    constructor Copy(parent: NeuralNetwork)
      requires parent.Valid()
      ensures Valid() && fitness == 0.0
      ensures |layers| == |parent.layers| && Sizes() == parent.Sizes()
      ensures forall i :: 0 <= i < |layers| ==>
                fresh(layers[i].weights) && SameWeights(layers[i].weights, parent.layers[i].weights)
    {
      var ls: seq<Layer> := [];
      var i := 0;
      while i < |parent.layers|
        invariant 0 <= i <= |parent.layers| && |ls| == i
        invariant forall k :: 0 <= k < i ==> ls[k].Valid() && fresh(ls[k].weights)
        invariant forall k :: 0 <= k < i ==>
                    ls[k].numberOfInputs == parent.layers[k].numberOfInputs && ls[k].numberOfOutputs == parent.layers[k].numberOfOutputs
        invariant forall k :: 0 <= k < i ==> SameWeights(ls[k].weights, parent.layers[k].weights)
        invariant forall k, l :: 0 <= k < l < i ==> ls[k].weights != ls[l].weights
      {
        var layer := new Layer.Copy(parent.layers[i]);
        ls := ls + [layer];
        i := i + 1;
      }
      layers := ls;
      fitness := 0.0;
    }

    /** `NeuralNetwork(float[][,] weights)` (NeuralNetwork.cs:58-69): each
        layer is built with its random initial values (`draws[i]`) and then
        overwritten by `Array.Copy` from `weights[i]`. */
    constructor FromWeights(weights: seq<array2<real>>, draws: seq<seq<seq<real>>>)
      requires |draws| == |weights|
      requires forall i :: 0 <= i < |weights| ==> weights[i].Length0 <= IntMax && weights[i].Length1 <= IntMax
      requires forall i :: 0 <= i < |weights| ==> DrawsShaped(draws[i], weights[i].Length0, weights[i].Length1)
      ensures fitness == 0.0 && |layers| == |weights|
      ensures forall i :: 0 <= i < |layers| ==>
                && layers[i].Valid() && fresh(layers[i].weights)
                && layers[i].numberOfInputs == weights[i].Length1
                && layers[i].numberOfOutputs == weights[i].Length0
                && SameWeights(layers[i].weights, weights[i])
      ensures (forall i :: 0 <= i < |weights| - 1 ==> weights[i].Length0 == weights[i + 1].Length1) ==> Valid()
    {
      var ls: seq<Layer> := [];
      var i := 0;
      while i < |weights|
        invariant 0 <= i <= |weights| && |ls| == i
        invariant forall k :: 0 <= k < i ==> ls[k].Valid() && fresh(ls[k].weights)
        invariant forall k :: 0 <= k < i ==>
                    ls[k].numberOfInputs == weights[k].Length1 && ls[k].numberOfOutputs == weights[k].Length0
        invariant forall k :: 0 <= k < i ==> SameWeights(ls[k].weights, weights[k])
        invariant forall k, l :: 0 <= k < l < i ==> ls[k].weights != ls[l].weights
      {
        var layer := new Layer(weights[i].Length1, weights[i].Length0, draws[i]);
        CopyWeights(weights[i], layer.weights);
        ls := ls + [layer];
        i := i + 1;
      }
      layers := ls;
      fitness := 0.0;
    }

    /** `Mutate()` (NeuralNetwork.cs:96-102): every layer in turn. */
    method Mutate(rolls: seq<seq<seq<real>>>, extras: seq<seq<seq<real>>>)
      requires Valid()
      requires |rolls| == |layers| && |extras| == |layers|
      requires forall l :: 0 <= l < |layers| ==> MutationDraws(rolls[l], extras[l], layers[l])
      modifies Arrays()
      ensures forall l :: 0 <= l < |layers| ==> Mutated(layers[l], old(Cells(layers[l].weights)), rolls[l], extras[l])
    {
      var l := 0;
      while l < |layers|
        invariant 0 <= l <= |layers|
        invariant forall k :: 0 <= k < l ==> Mutated(layers[k], old(Cells(layers[k].weights)), rolls[k], extras[k])
        invariant forall k :: l <= k < |layers| ==> unchanged(layers[k].weights)
      {
        layers[l].Mutate(rolls[l], extras[l]);
        l := l + 1;
      }
    }

    /** The weight texts of every layer, in order. */
    ghost function Blocks(format: real -> string): (b: seq<seq<seq<string>>>)
      reads Arrays()
      ensures |b| == |layers|
    {
      BlocksOf(layers, format)
    }

    /** `WeightsToFile(path)` (NeuralNetwork.cs:198-230) with the file's lines as
        the result; `format` stands for the culture-dependent float-to-text
        conversion of `StringBuilder.Append(float)`. A network without layers
        throws at `Layers[^1]` before anything is written. */
    method WeightsToFile(format: real -> string) returns (lines: Option<seq<string>>)
      requires Valid()
      ensures |layers| == 0 <==> lines.None?
      ensures lines.Some? ==> lines.value == FileLines(Sizes(), Blocks(format))
      ensures lines.Some? && (forall x :: WellFormedToken(format(x))) ==>
                && ReadWeights(lines.value).Success?
                && var ms := ReadWeights(lines.value).value;
                   && |ms| == |layers|
                   && forall i :: 0 <= i < |layers| ==>
                        ms[i] == Matrix(layers[i].numberOfOutputs, layers[i].numberOfInputs, Blocks(format)[i])
    {
      if |layers| == 0 {
        return None;
      }
      var header := WriteHeader();
      var body := WriteBody(format);
      lines := Some([header] + body);
      if forall x :: WellFormedToken(format(x)) {
        SavedFileReadsBack(format);
      }
    }

    /** The layer blocks of the file, each closed by a `#` line
        (NeuralNetwork.cs:212-226). */
    method WriteBody(format: real -> string) returns (body: seq<string>)
      requires Valid()
      ensures body == BodyLines(Blocks(format))
    {
      ghost var blocks := Blocks(format);
      body := [];
      var i := 0;
      while i < |layers|
        invariant 0 <= i <= |layers|
        invariant body == BodyLines(blocks[..i])
      {
        var rows := WriteLayer(layers[i], format);
        BodyLinesPrefix(blocks, i);
        body := body + rows + ["#"];
        i := i + 1;
      }
      assert blocks[..i] == blocks;
    }

    /** The file written for these layers reads back as their weight matrices. */
    lemma SavedFileReadsBack(format: real -> string)
      requires Valid() && |layers| > 0 && forall x :: WellFormedToken(format(x))
      ensures ReadWeights(FileLines(Sizes(), Blocks(format))).Success?
      ensures var ms := ReadWeights(FileLines(Sizes(), Blocks(format))).value;
              && |ms| == |layers|
              && forall i :: 0 <= i < |layers| ==>
                   ms[i] == Matrix(layers[i].numberOfOutputs, layers[i].numberOfInputs, Blocks(format)[i])
    {
      var sizes, blocks := Sizes(), Blocks(format);
      forall i | 0 <= i < |blocks|
        ensures RowsFit(blocks[i], sizes[i + 1], sizes[i])
      {
        FormattedRowsFit(layers[i].weights, format);
        assert sizes[i + 1] == layers[i].numberOfOutputs;
      }
      FileRoundTrip(sizes, blocks);
    }

    /** The `{...}` line (NeuralNetwork.cs:201-209). */
    method WriteHeader() returns (header: string)
      requires Valid() && |layers| > 0
      ensures header == HeaderText(Sizes())
    {
      ghost var sizes := Sizes();
      header := "{";
      var i := 0;
      while i < |layers|
        invariant 0 <= i <= |layers|
        invariant header == "{" + SizeList(sizes[..i])
      {
        SizeListSnoc(sizes[..i], layers[i].numberOfInputs);
        assert sizes[..i + 1] == sizes[..i] + [layers[i].numberOfInputs];
        header := header + NatToString(layers[i].numberOfInputs) + ",";
        i := i + 1;
      }
      header := header + NatToString(layers[|layers| - 1].numberOfOutputs) + "}";
      assert sizes[..|sizes| - 1] == sizes[..|layers|];
    }

    /** `CompareTo(other)` (NeuralNetwork.cs:237-248): a null argument throws. */
    function CompareTo(other: NeuralNetwork?): (r: Option<int>)
      reads this, other
      ensures other == null <==> r == None
      ensures other != null ==> r == Some(Compare(fitness, other.fitness))
    {
      if other == null then None else Some(Compare(fitness, other.fitness))
    }
  }
}
