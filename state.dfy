/** The top-level interaction state of the canvas (`State` in state.rs). */
module States {

  datatype State = Idle | Drag

  /** `State::default()`: a canvas starts idle. */
  function Default(): (s: State)
    ensures s == Idle
  {
    Idle
  }

  /** `State::new()`, defined as the default state. */
  function New(): (s: State)
    ensures s == Default() && s.Idle?
  {
    Default()
  }

  /**
    * A `std::fmt::Formatter` reduced to what `Display` uses: the text written so
    * far, and whether its sink accepts writes (a write to a failing sink is an error).
    */
  datatype Formatter = Formatter(written: string, sinkAccepts: bool)

  /** `std::fmt::Result`. */
  datatype FmtResult = FmtOk | FmtError

  /** `write!(f, text)`. */
  function Write(f: Formatter, text: string): (FmtResult, Formatter) {
    if f.sinkAccepts then (FmtOk, f.(written := f.written + text)) else (FmtError, f)
  }

  /**
    * `<State as Display>::fmt`: one `write!` of the state's name, whose error the
    * `?` passes on, then `Ok(())`.
    */
  function Fmt(s: State, f: Formatter): (r: (FmtResult, Formatter))
    ensures r.0 == FmtOk <==> f.sinkAccepts
    ensures r.0 == FmtError ==> r.1 == f
    ensures r.0 == FmtOk ==>
              r.1.sinkAccepts && |r.1.written| == |f.written| + 4 && r.1.written[..|f.written|] == f.written
  {
    match s
    case Idle => Write(f, "Idle")
    case Drag => Write(f, "Drag")
  }

  /** `s.to_string()`: formatting into a `String`, whose sink never fails. */
  function ToString(s: State): string {
    Fmt(s, Formatter("", true)).1.written
  }

  /** Each state is rendered as its own name. */
  lemma ToStringNames()
    ensures ToString(Idle) == "Idle" && ToString(Drag) == "Drag"
  {
  }

  /** Any accepting formatter receives exactly the state's name after what it already holds. */
  lemma FmtAppendsName(s: State, f: Formatter)
    requires f.sinkAccepts
    ensures Fmt(s, f).1.written == f.written + ToString(s)
  {
    assert ToString(s) == Fmt(s, Formatter("", true)).1.written;
    assert "" + (if s.Idle? then "Idle" else "Drag") == (if s.Idle? then "Idle" else "Drag");
  }

  /** Distinct states are rendered as distinct text by any accepting formatter. */
  lemma FmtInjective(s: State, t: State, f: Formatter)
    requires f.sinkAccepts && s != t
    ensures Fmt(s, f).1.written != Fmt(t, f).1.written
  {
    var n := |f.written|;
    assert Fmt(s, f).1.written[n] != Fmt(t, f).1.written[n];
  }
}
