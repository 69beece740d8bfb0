/**
 * The buffer layout an LSTM layer with peephole connections declares
 * (`LstmPeepholeLayerImpl.setup` in brainstorm/layers/lstm_peephole.py) and
 * the activation table its `set_handler` chooses from.
 *
 * A buffer declaration (`BufferStructure`) is a shape, a context size and a
 * backward-only flag; a table of them (an `OrderedDict`) is a sequence of
 * named entries in insertion order.
 */
module LstmLayout {
  import opened Wrappers

  /** One axis of a buffer shape: the time axis `'T'`, the batch axis `'B'`,
      or a fixed number of features. */
  datatype Dim = T | B | N(n: int)

  datatype Structure = Structure(shape: seq<Dim>, contextSize: nat, backwardOnly: bool)

  type Table = seq<(string, Structure)>

  datatype Layout = Layout(outputs: Table, parameters: Table, internals: Table)

  /** The value of the `size` keyword argument: an int (Python's `bool`
      included, as `isinstance` accepts it) or anything else. */
  datatype SizeArg = IntArg(n: int) | OtherArg

  datatype SetupError = SizeNotInt

  /** The keyword arguments the layer accepts (`expected_kwargs`), each
      possibly absent. */
  datatype Kwargs = Kwargs(size: Option<SizeArg>, activation: Option<string>)

  function Names(t: Table): (r: seq<string>)
    ensures |r| == |t| && forall i :: 0 <= i < |t| ==> r[i] == t[i].0
  {
    if t == [] then [] else [t[0].0] + Names(t[1..])
  }

  /** The four groups of parameters, and all fifteen in order. */
  const InputWeights: seq<string> := ["Wz", "Wi", "Wf", "Wo"]
  const Peepholes: seq<string> := ["Wci", "Wcf", "Wco"]
  const RecurrentWeights: seq<string> := ["Rz", "Ri", "Rf", "Ro"]
  const Biases: seq<string> := ["bz", "bi", "bf", "bo"]
  const ParameterNames: seq<string> := InputWeights + Peepholes + RecurrentWeights + Biases

  /** The forward internals; the backward ones are the same names with a
      leading `d`. */
  const StateNames: seq<string> := ["Za", "Zb", "Ia", "Ib", "Fa", "Fb", "Oa", "Ob", "Ca", "Cb"]

  /** A buffer over time and batch with `n` features and one context slot. */
  function TimeBuffer(n: int, backwardOnly: bool): Structure
  {
    Structure([T, B, N(n)], 1, backwardOnly)
  }

  /** A fixed-shape buffer: no context slot, needed forward. */
  function Fixed(dims: seq<Dim>): Structure
  {
    Structure(dims, 0, false)
  }

  /** Consecutive entries, one per name, all declared alike. */
  function Group(names: seq<string>, s: Structure): Table
  {
    seq(|names|, i requires 0 <= i < |names| => (names[i], s))
  }

  /** The name of the delta buffer of each name. */
  function Deltas(names: seq<string>): seq<string>
  {
    seq(|names|, i requires 0 <= i < |names| => "d" + names[i])
  }

  /** `kwargs.get('size', in_size)`. */
  function SizeOf(kw: Option<SizeArg>, inSize: int): SizeArg
  {
    if kw.Some? then kw.value else IntArg(inSize)
  }

  /** `setup(kwargs, in_shapes)` with `in_size` the feature size of the
      default input: the output, then the parameters in four groups (input
      weights, peepholes, recurrent weights, biases), then the internals
      (ten forward buffers and their ten deltas). Only the type of `size` is
      checked: zero and negative sizes are accepted. */
  function SetupLayout(kw: Option<SizeArg>, inSize: int): (r: Result<Layout, SetupError>)
    ensures r.Err? <==> kw.Some? && kw.value == OtherArg
    ensures r.Ok? ==> r.value.outputs == [("default", TimeBuffer(SizeOf(kw, inSize).n, false))]
  {
    var size := SizeOf(kw, inSize);
    if !size.IntArg? then Err(SizeNotInt)
    else
      var n := size.n;
      var outputs := [("default", TimeBuffer(n, false))];
      var parameters :=
        Group(InputWeights, Fixed([N(n), N(inSize)])) +
        Group(Peepholes, Fixed([N(n)])) +
        Group(RecurrentWeights, Fixed([N(n), N(n)])) +
        Group(Biases, Fixed([N(n)]));
      var internals := Group(StateNames, TimeBuffer(n, false)) + Group(Deltas(StateNames), TimeBuffer(n, true));
      Ok(Layout(outputs, parameters, internals))
  }

  /** An absent `size` is the input feature size. */
  lemma SetupDefaultsToInputSize(inSize: int)
    ensures SetupLayout(None, inSize) == SetupLayout(Some(IntArg(inSize)), inSize)
    ensures SetupLayout(None, inSize).Ok?
  {
  }

  lemma NamesOfGroup(a: seq<string>, s: Structure)
    ensures Names(Group(a, s)) == a
  {
    var r := Names(Group(a, s));
    forall i | 0 <= i < |a|
      ensures r[i] == a[i]
    {
    }
  }

  lemma NamesConcat(x: Table, y: Table)
    ensures Names(x + y) == Names(x) + Names(y)
  {
    var r := Names(x + y);
    forall i | 0 <= i < |x + y|
      ensures r[i] == (Names(x) + Names(y))[i]
    {
      if i < |x| {
        assert (x + y)[i] == x[i];
      } else {
        assert (x + y)[i] == y[i - |x|];
      }
    }
  }

  /** Fifteen parameters, in the order Wz Wi Wf Wo, Wci Wcf Wco, Rz Ri Rf Ro,
      bz bi bf bo. */
  lemma SetupParameterNames(kw: Option<SizeArg>, inSize: int)
    requires SetupLayout(kw, inSize).Ok?
    ensures Names(SetupLayout(kw, inSize).value.parameters) == ParameterNames
  {
    var n := SizeOf(kw, inSize).n;
    var w := Group(InputWeights, Fixed([N(n), N(inSize)]));
    var c := Group(Peepholes, Fixed([N(n)]));
    var r := Group(RecurrentWeights, Fixed([N(n), N(n)]));
    var b := Group(Biases, Fixed([N(n)]));
    NamesOfGroup(InputWeights, Fixed([N(n), N(inSize)]));
    NamesOfGroup(Peepholes, Fixed([N(n)]));
    NamesOfGroup(RecurrentWeights, Fixed([N(n), N(n)]));
    NamesOfGroup(Biases, Fixed([N(n)]));
    NamesConcat(w, c);
    NamesConcat(r, b);
    NamesConcat(w + c, r + b);
    assert SetupLayout(kw, inSize).value.parameters == (w + c) + (r + b);
    assert (InputWeights + Peepholes) + (RecurrentWeights + Biases) == ParameterNames;
  }

  /** The input weights are size × in_size, the recurrent weights size ×
      size, the peepholes and biases vectors of size; none has a context
      slot or is backward-only. */
  lemma SetupParameterShapes(kw: Option<SizeArg>, inSize: int)
    requires SetupLayout(kw, inSize).Ok?
    ensures var p := SetupLayout(kw, inSize).value.parameters;
            var n := SizeOf(kw, inSize).n;
            |p| == 15 &&
            (forall i :: 0 <= i < 4 ==> p[i].1 == Fixed([N(n), N(inSize)])) &&
            (forall i :: 4 <= i < 7 ==> p[i].1 == Fixed([N(n)])) &&
            (forall i :: 7 <= i < 11 ==> p[i].1 == Fixed([N(n), N(n)])) &&
            (forall i :: 11 <= i < 15 ==> p[i].1 == Fixed([N(n)]))
  {
  }

  /** Twenty internals, each over time and batch with size features and one
      context slot: Za Zb Ia Ib Fa Fb Oa Ob Ca Cb, then the delta of each in
      the same order, and exactly the deltas are backward-only. */
  lemma SetupInternals(kw: Option<SizeArg>, inSize: int)
    requires SetupLayout(kw, inSize).Ok?
    ensures var m := SetupLayout(kw, inSize).value.internals;
            var n := SizeOf(kw, inSize).n;
            |m| == 20 &&
            (forall i :: 0 <= i < 10 ==> m[i].0 == StateNames[i] && m[i + 10].0 == "d" + StateNames[i]) &&
            (forall i :: 0 <= i < 20 ==> m[i].1 == TimeBuffer(n, i >= 10))
  {
  }

  /** The number of elements of a buffer of shape `dims` for `time` steps
      and `batch` sequences. */
  function Elements(dims: seq<Dim>, time: nat, batch: nat): int
  {
    if dims == [] then 1
    else
      var d := match dims[0] case T => time case B => batch case N(k) => k;
      d * Elements(dims[1..], time, batch)
  }

  /** The number of elements of all buffers of a table. */
  function TotalElements(t: Table, time: nat, batch: nat): int
  {
    if t == [] then 0 else Elements(t[0].1.shape, time, batch) + TotalElements(t[1..], time, batch)
  }

  lemma {:induction false} TotalElementsConcat(a: Table, b: Table, time: nat, batch: nat)
    ensures TotalElements(a + b, time, batch) == TotalElements(a, time, batch) + TotalElements(b, time, batch)
    decreases |a|
  {
    if a == [] {
      assert a + b == b;
    } else {
      assert (a + b)[1..] == a[1..] + b;
      TotalElementsConcat(a[1..], b, time, batch);
    }
  }

  lemma {:induction false} GroupElements(names: seq<string>, s: Structure, time: nat, batch: nat)
    ensures TotalElements(Group(names, s), time, batch) == |names| * Elements(s.shape, time, batch)
    decreases |names|
  {
    if names != [] {
      assert Group(names, s)[1..] == Group(names[1..], s);
      GroupElements(names[1..], s, time, batch);
    }
  }

  /** The four input weights, the three peepholes, the four recurrent
      weights and the four biases hold `4·size·in_size + 3·size +
      4·size·size + 4·size` numbers, whatever the time and batch sizes. */
  lemma ParameterCount(kw: Option<SizeArg>, inSize: int, time: nat, batch: nat)
    requires SetupLayout(kw, inSize).Ok?
    ensures var n := SizeOf(kw, inSize).n;
            TotalElements(SetupLayout(kw, inSize).value.parameters, time, batch)
              == 4 * n * inSize + 3 * n + 4 * n * n + 4 * n
  {
    var n := SizeOf(kw, inSize).n;
    var w := Group(InputWeights, Fixed([N(n), N(inSize)]));
    var c := Group(Peepholes, Fixed([N(n)]));
    var r := Group(RecurrentWeights, Fixed([N(n), N(n)]));
    var b := Group(Biases, Fixed([N(n)]));
    assert SetupLayout(kw, inSize).value.parameters == w + c + r + b;
    TotalElementsConcat(w + c + r, b, time, batch);
    TotalElementsConcat(w + c, r, time, batch);
    TotalElementsConcat(w, c, time, batch);
    GroupElements(InputWeights, Fixed([N(n), N(inSize)]), time, batch);
    GroupElements(Peepholes, Fixed([N(n)]), time, batch);
    GroupElements(RecurrentWeights, Fixed([N(n), N(n)]), time, batch);
    GroupElements(Biases, Fixed([N(n)]), time, batch);
    assert Elements([N(inSize)], time, batch) == inSize;
    assert Elements([N(n)], time, batch) == n;
    assert Elements([N(n), N(inSize)], time, batch) == n * inSize;
    assert Elements([N(n), N(n)], time, batch) == n * n;
    assert 4 * (n * inSize) == 4 * n * inSize;
    assert 4 * (n * n) == 4 * n * n;
  }

  // ------------------------------------------------------------- set_handler

  datatype Activation = Sigmoid | Tanh | Linear | Rel

  /** The keys of the `activations` dictionary of `set_handler`. */
  function ActivationName(a: Activation): string
  {
    match a
    case Sigmoid => "sigmoid"
    case Tanh => "tanh"
    case Linear => "linear"
    case Rel => "rel"
  }

  const Activations: map<string, Activation> :=
    map["sigmoid" := Sigmoid, "tanh" := Tanh, "linear" := Linear, "rel" := Rel]

  /** `activations[self.kwargs.get('activation', 'tanh')]`; an unknown name
      is the KeyError, carrying that name. */
  function SelectActivation(name: Option<string>): (r: Result<Activation, string>)
    ensures name.None? ==> r == Ok(Tanh)
    ensures name.Some? ==> (r.Ok? <==> name.value in {"sigmoid", "tanh", "linear", "rel"})
    ensures name.Some? && r.Ok? ==> ActivationName(r.value) == name.value
    ensures r.Err? ==> name.Some? && r.error == name.value
  {
    var key := if name.Some? then name.value else "tanh";
    if key in Activations then Ok(Activations[key]) else Err(key)
  }

  /** Every activation is selected by its own name. */
  lemma SelectByName(a: Activation)
    ensures SelectActivation(Some(ActivationName(a))) == Ok(a)
  {
  }

  type Vec = seq<real>

  /** The backend operations the table refers to. Their numerics are the
      backend's and are not modelled: each is an opaque function of its
      arguments (`x`, `y`, `dy` for a derivative, giving `dx`). */
  datatype Handler = Handler(
    sigmoid: Vec -> Vec, sigmoidDeriv: (Vec, Vec, Vec) -> Vec,
    tanh: Vec -> Vec, tanhDeriv: (Vec, Vec, Vec) -> Vec,
    rel: Vec -> Vec, relDeriv: (Vec, Vec, Vec) -> Vec)

  /** `act_func(x, y)`: what it writes into `y`. */
  function Forward(a: Activation, h: Handler, x: Vec): Vec
  {
    match a
    case Sigmoid => h.sigmoid(x)
    case Tanh => h.tanh(x)
    case Linear => x
    case Rel => h.rel(x)
  }

  /** `act_func_deriv(x, y, dy, dx)`: what it writes into `dx`. */
  function Derivative(a: Activation, h: Handler, x: Vec, y: Vec, dy: Vec): Vec
  {
    match a
    case Sigmoid => h.sigmoidDeriv(x, y, dy)
    case Tanh => h.tanhDeriv(x, y, dy)
    case Linear => dy
    case Rel => h.relDeriv(x, y, dy)
  }

  /** `linear` copies its input to its output and its output delta to its
      input delta; the others are the handler's pair of the same name. */
  lemma ActivationPairs(h: Handler, x: Vec, y: Vec, dy: Vec)
    ensures Forward(Linear, h, x) == x && Derivative(Linear, h, x, y, dy) == dy
    ensures Forward(Tanh, h, x) == h.tanh(x) && Derivative(Tanh, h, x, y, dy) == h.tanhDeriv(x, y, dy)
    ensures Forward(Sigmoid, h, x) == h.sigmoid(x) && Derivative(Sigmoid, h, x, y, dy) == h.sigmoidDeriv(x, y, dy)
    ensures Forward(Rel, h, x) == h.rel(x) && Derivative(Rel, h, x, y, dy) == h.relDeriv(x, y, dy)
  {
  }

  /** The layer object: its keyword arguments, and the size, handler and
      activation that `setup` and `set_handler` store on it. `act == None`
      is the do-nothing placeholder `setup` installs. */
  class LstmPeepholeLayer {
    const kwargs: Kwargs
    var size: SizeArg
    var handler: Option<Handler>
    var act: Option<Activation>

    constructor (kwargs: Kwargs)
      ensures this.kwargs == kwargs && handler.None? && act.None?
    {
      this.kwargs := kwargs;
      size := OtherArg;
      handler := None;
      act := None;
    }

    /** `setup`: the placeholder activation and the size are stored before
        the size is checked. */
    method Setup(inSize: int) returns (r: Result<Layout, SetupError>)
      modifies this
      ensures r == SetupLayout(kwargs.size, inSize)
      ensures size == SizeOf(kwargs.size, inSize) && act.None? && handler == old(handler)
    {
      act := None;
      size := if kwargs.size.Some? then kwargs.size.value else IntArg(inSize);
      if !size.IntArg? {
        return Err(SizeNotInt);
      }
      r := SetupLayout(kwargs.size, inSize);
    }

    /** `set_handler`: the handler is stored first, then the activation is
        looked up; an unknown name leaves the previous activation. */
    method SetHandler(h: Handler) returns (r: Result<Activation, string>)
      modifies this
      ensures r == SelectActivation(kwargs.activation)
      ensures handler == Some(h) && size == old(size)
      ensures act == (if r.Ok? then Some(r.value) else old(act))
    {
      handler := Some(h);
      var key := if kwargs.activation.Some? then kwargs.activation.value else "tanh";
      if key !in Activations {
        return Err(key);
      }
      act := Some(Activations[key]);
      r := Ok(Activations[key]);
    }
  }
}
