/**
 The table-driven reader of 3rdparty/rapidjson/reader.h: a pushdown automaton whose stack holds, for each
 open object or array, the state to return to and a count of its members or elements.
 */
module JsonAutomaton {
  import opened Json
  import opened Streams
  import opened JsonText
  import opened JsonGrammar

  datatype State =
    | Finish | Error | Start
    | ObjectInitial | MemberKey | MemberValue | ObjectFinish
    | ArrayInitial | ElementState | ArrayFinish
    | ValueState
    | ElementDelimiter | MemberDelimiter | KeyValueDelimiter

  datatype Token =
    | LeftBracket | RightBracket | LeftCurlyBracket | RightCurlyBracket | Comma | Colon
    | StringToken | FalseToken | TrueToken | NullToken | NumberToken

  function Tokenize(c: char): Token {
    match c
    case '[' => LeftBracket
    case ']' => RightBracket
    case '{' => LeftCurlyBracket
    case '}' => RightCurlyBracket
    case ',' => Comma
    case ':' => Colon
    case '\"' => StringToken
    case 'f' => FalseToken
    case 't' => TrueToken
    case 'n' => NullToken
    case _ => NumberToken
  }

  predicate IsScalarToken(t: Token) {
    t.StringToken? || t.FalseToken? || t.TrueToken? || t.NullToken? || t.NumberToken?
  }

  /** The table `G`: current state and one token of lookahead to the state to enter. */
  function Predict(s: State, t: Token): State {
    match s
    case Start =>
      if t.LeftBracket? then ArrayInitial else if t.LeftCurlyBracket? then ObjectInitial
      else if IsScalarToken(t) then ValueState else Error
    case ObjectInitial =>
      if t.RightCurlyBracket? then ObjectFinish else if t.StringToken? then MemberKey else Error
    case MemberKey =>
      if t.Colon? then KeyValueDelimiter else Error
    case MemberValue =>
      if t.RightCurlyBracket? then ObjectFinish else if t.Comma? then MemberDelimiter else Error
    case ArrayInitial =>
      if t.LeftBracket? then ArrayInitial else if t.RightBracket? then ArrayFinish
      else if t.LeftCurlyBracket? then ObjectInitial else if IsScalarToken(t) then ElementState else Error
    case ElementState =>
      if t.RightBracket? then ArrayFinish else if t.Comma? then ElementDelimiter else Error
    case ElementDelimiter =>
      if t.LeftBracket? then ArrayInitial else if t.RightBracket? then ArrayFinish
      else if t.LeftCurlyBracket? then ObjectInitial else if IsScalarToken(t) then ElementState else Error
    case MemberDelimiter =>
      if t.RightCurlyBracket? then ObjectFinish else if t.StringToken? then MemberKey else Error
    case KeyValueDelimiter =>
      if t.LeftBracket? then ArrayInitial else if t.LeftCurlyBracket? then ObjectInitial
      else if IsScalarToken(t) then MemberValue else Error
    case _ => Error
  }

  datatype Frame = Frame(state: State, count: nat)

  datatype Config = Config(state: State, stack: seq<Frame>, src: string, events: seq<Event>)

  /** The state to return to is always `Start` at the bottom of the stack and the state after an element
      or a member value above it; the states inside an object or array have a frame of their own. */
  predicate Coherent(state: State, stack: seq<Frame>) {
    && (stack == [] <==> state.Start? || state.Finish?)
    && !state.ObjectFinish? && !state.ArrayFinish? && !state.ValueState? && !state.Error?
    && forall i :: 0 <= i < |stack| ==>
         if i == 0 then stack[i].state.Start? else stack[i].state.ElementState? || stack[i].state.MemberValue?
  }

  /** The state to return to when a bracket opened in state `s` closes. */
  function Returning(s: State): State {
    if s.ArrayInitial? || s.ElementDelimiter? then ElementState
    else if s.KeyValueDelimiter? then MemberValue
    else s
  }

  function Fail(c: Config): Config {
    c.(state := Error)
  }

  /** `ParseValue`, for a scalar, and enter the state `next`. */
  function TransitScalar(f: Flags, c: Config, next: State): Config {
    var v := ValueAt(f, c.src);
    if v.Failed? then Fail(c)
    else Config(next, c.stack, v.rest, c.events + Events(v.value))
  }

  function TransitKey(f: Flags, c: Config): Config
    requires c.src != ""
  {
    var name := StringAt(c.src[1..], "");
    if name.Failed? then Fail(c)
    else Config(MemberKey, c.stack, name.rest, c.events + [Key(name.value)])
  }

  /** Close an object or array: `last` says whether a member or element ended just before. */
  function TransitClose(f: Flags, c: Config, isObject: bool): Config
    requires c.src != "" && c.stack != []
  {
    var delimited := if isObject then c.state.MemberDelimiter? else c.state.ElementDelimiter?;
    var last := if isObject then c.state.MemberValue? else c.state.ElementState?;
    if !f.trailingCommas && delimited then Fail(c)
    else
      var top := c.stack[|c.stack| - 1];
      var count := top.count + if last then 1 else 0;
      Config(if top.state.Start? then Finish else top.state,
             c.stack[..|c.stack| - 1], c.src[1..],
             c.events + [if isObject then EndObject(count) else EndArray(count)])
  }

  /** `Transit`: carry out the step to the predicted state `dst`. */
  function Transit(f: Flags, c: Config, dst: State): Config
    requires c.src != "" && Coherent(c.state, c.stack) && dst == Predict(c.state, Tokenize(c.src[0]))
  {
    match dst
    case ObjectInitial => Config(dst, c.stack + [Frame(Returning(c.state), 0)], c.src[1..], c.events + [StartObject])
    case ArrayInitial => Config(dst, c.stack + [Frame(Returning(c.state), 0)], c.src[1..], c.events + [StartArray])
    case MemberKey => TransitKey(f, c)
    case KeyValueDelimiter => c.(state := dst, src := c.src[1..])
    case MemberValue => TransitScalar(f, c, dst)
    case ElementState => TransitScalar(f, c, dst)
    case MemberDelimiter => Count(c, dst)
    case ElementDelimiter => Count(c, dst)
    case ObjectFinish => TransitClose(f, c, true)
    case ArrayFinish => TransitClose(f, c, false)
    case ValueState => TransitScalar(f, c, Finish)
    case _ => Fail(c)
  }

  /** Count the member or element before a comma. */
  function Count(c: Config, dst: State): Config
    requires c.src != "" && c.stack != []
  {
    var top := |c.stack| - 1;
    c.(state := dst, src := c.src[1..], stack := c.stack[top := c.stack[top].(count := c.stack[top].count + 1)])
  }

  /** Every step that is no error keeps the stack discipline and consumes input. */
  lemma TransitKeeps(f: Flags, c: Config)
    requires c.src != "" && Coherent(c.state, c.stack)
    ensures var d := Transit(f, c, Predict(c.state, Tokenize(c.src[0])));
            !d.state.Error? ==> Coherent(d.state, d.stack) && |d.src| < |c.src|
  {
    hide ValueAt, StringAt, Tokenize, Coherent, Predict, Returning;
    var t := Tokenize(c.src[0]);
    PredictedIsCoherent(c.state, t, c.stack);
    var dst := Predict(c.state, t);
    match dst
    case ObjectInitial => OpenKeeps(c.state, t, c.stack);
    case ArrayInitial => OpenKeeps(c.state, t, c.stack);
    case ObjectFinish => CloseKeeps(c.state, t, c.stack);
    case ArrayFinish => CloseKeeps(c.state, t, c.stack);
    case MemberDelimiter => CountKeeps(c, dst);
    case ElementDelimiter => CountKeeps(c, dst);
    case _ =>
  }

  /** A step that leaves the stack alone enters a state that fits it. */
  lemma PredictedIsCoherent(s: State, t: Token, stack: seq<Frame>)
    requires Coherent(s, stack)
    ensures var d := Predict(s, t);
            if d.ValueState? then Coherent(Finish, stack)
            else d.Error? || d.ObjectInitial? || d.ArrayInitial? || d.ObjectFinish? || d.ArrayFinish?
                 || Coherent(d, stack)
  {
  }

  lemma OpenKeeps(s: State, t: Token, stack: seq<Frame>)
    requires Coherent(s, stack)
    ensures var d := Predict(s, t);
            d.ObjectInitial? || d.ArrayInitial? ==> Coherent(d, stack + [Frame(Returning(s), 0)])
  {
  }

  lemma CloseKeeps(s: State, t: Token, stack: seq<Frame>)
    requires Coherent(s, stack) && (Predict(s, t).ObjectFinish? || Predict(s, t).ArrayFinish?)
    ensures stack != []
    ensures var back := stack[|stack| - 1].state;
            !back.Error? && Coherent(if back.Start? then Finish else back, stack[..|stack| - 1])
  {
  }

  lemma CountKeeps(c: Config, dst: State)
    requires c.src != "" && Coherent(dst, c.stack) && (dst.MemberDelimiter? || dst.ElementDelimiter?)
    ensures c.stack != [] && Coherent(dst, Count(c, dst).stack)
  {
  }

  datatype Outcome = Rejected | Accepted(events: seq<Event>, rest: string)

  /** The loop of `IterativeParse`. */
  function Run(f: Flags, c: Config): Outcome
    requires Coherent(c.state, c.stack)
    decreases |c.src|, 0
  {
    hide Coherent, Transit;
    if Peek(c.src) == '\0' then if c.state.Finish? then Accepted(c.events, c.src) else Rejected
    else
      TransitKeeps(f, c);
      var d := Transit(f, c, Predict(c.state, Tokenize(c.src[0])));
      if d.state.Error? then Rejected else Continue(f, d)
  }

  /** The part of the loop after a transition. */
  function Continue(f: Flags, d: Config): Outcome
    requires Coherent(d.state, d.stack)
    decreases |d.src|, 1
  {
    hide Coherent;
    if f.stopWhenDone && d.state.Finish? then Accepted(d.events, d.src)
    else
      var next := Skip(f, d.src);
      if next.None? then Rejected else Run(f, d.(src := next.value))
  }

  /** `IterativeParse`, for a handler that was told `announced` before. */
  function IterativeParse(f: Flags, s: string, announced: seq<Event>): Outcome {
    var start := Skip(f, s);
    if start.None? then Rejected else Run(f, Config(Start, [], start.value, announced))
  }
}
