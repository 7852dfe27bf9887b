/**
  The verbosity filter of the logger: messages carry a level, the logger
  carries a verbosity, and a message reaches the terminal only when its level
  is at least the verbosity. What reaches the terminal is recorded as a
  trace of displayed entries, oldest first.
 */
module Logging {
  import Strings

  /**
    The information levels, in declaration order. `NonExhaustive` stands for
    the hidden variant that only exists to discourage exhaustive matching.
   */
  datatype InfoLevel = Debug | Warning | Info | Error | Quiet | NonExhaustive

  /** The discriminant of a level; the derived ordering compares these. */
  function Rank(l: InfoLevel): nat {
    match l
    case Debug => 0
    case Warning => 1
    case Info => 2
    case Error => 3
    case Quiet => 4
    case NonExhaustive => 5
  }

  /** `a <= b` in the derived ordering of `InfoLevel`. */
  predicate Le(a: InfoLevel, b: InfoLevel) {
    Rank(a) <= Rank(b)
  }

  /** `a < b` in the derived ordering of `InfoLevel`. */
  predicate Lt(a: InfoLevel, b: InfoLevel) {
    Rank(a) < Rank(b)
  }

  /** The four levels a message can be displayed at. */
  predicate IsMessageLevel(l: InfoLevel) {
    l.Debug? || l.Warning? || l.Info? || l.Error?
  }

  /**
    The levels are totally ordered by declaration order:
    Debug < Warning < Info < Error < Quiet.
   */
  lemma LevelsTotallyOrdered()
    ensures Lt(Debug, Warning) && Lt(Warning, Info) && Lt(Info, Error) && Lt(Error, Quiet)
    ensures Lt(Quiet, NonExhaustive)
    ensures forall a :: Le(a, a)
    ensures forall a, b :: Le(a, b) || Le(b, a)
    ensures forall a, b :: Le(a, b) && Le(b, a) ==> a == b
    ensures forall a, b, c :: Le(a, b) && Le(b, c) ==> Le(a, c)
    ensures forall a, b :: Lt(a, b) <==> Le(a, b) && a != b
  {
    forall a, b | Rank(a) == Rank(b) ensures a == b {
      match a
      case Debug =>
      case Warning =>
      case Info =>
      case Error =>
      case Quiet =>
      case NonExhaustive =>
    }
  }

  /** One line that reached the terminal: its level and its message. */
  datatype Entry = Entry(level: InfoLevel, msg: string)

  /** What has been displayed so far, oldest first. */
  type Trace = seq<Entry>

  /** The coloured head written before a message of each level. */
  function Header(level: InfoLevel): (h: string)
    requires IsMessageLevel(level)
    ensures |h| >= 2 && h[|h| - 2..] == ": "
  {
    match level
    case Debug => "Debug: "
    case Warning => "Warning: "
    case Info => "Info: "
    case Error => "Error: "
  }

  /**
    The line `print_msg` writes for an entry: the level's head, then the
    message, without the newline `writeln!` ends it with.
   */
  function Line(e: Entry): (line: string)
    requires IsMessageLevel(e.level)
    ensures |line| == |Header(e.level)| + |e.msg|
    ensures line[..|Header(e.level)|] == Header(e.level) && line[|Header(e.level)|..] == e.msg
  {
    var h := Header(e.level);
    assert (h + e.msg)[..|h|] == h;
    assert (h + e.msg)[|h|..] == e.msg;
    h + e.msg
  }

  /** A displayed line tells its level and its message apart: `Line` is injective. */
  lemma LineDeterminesEntry(e1: Entry, e2: Entry)
    requires IsMessageLevel(e1.level) && IsMessageLevel(e2.level)
    requires Line(e1) == Line(e2)
    ensures e1 == e2
  {
    var l1, l2 := Line(e1), Line(e2);
    assert l1[0] == Header(e1.level)[0];
    assert l2[0] == Header(e2.level)[0];
    assert e1.level == e2.level;
    var n := |Header(e1.level)|;
    assert e1.msg == l1[n..];
    assert e2.msg == l2[n..];
  }

  /** `Logger::display_msg`: prints the message whatever the verbosity. */
  function DisplayMsg(level: InfoLevel, msg: string, d: Trace): (d': Trace)
    requires IsMessageLevel(level)
    ensures |d'| == |d| + 1 && d'[..|d|] == d
    ensures d'[|d|].level == level && d'[|d|].msg == msg
  {
    d + [Entry(level, msg)]
  }

  /** `Logger::display_debug`. */
  function DisplayDebug(msg: string, d: Trace): (d': Trace)
    ensures d' == d + [Entry(Debug, msg)]
  {
    DisplayMsg(Debug, msg, d)
  }

  /** `Logger::display_info`. */
  function DisplayInfo(msg: string, d: Trace): (d': Trace)
    ensures d' == d + [Entry(Info, msg)]
  {
    DisplayMsg(Info, msg, d)
  }

  /** `Logger::display_warning`. */
  function DisplayWarning(msg: string, d: Trace): (d': Trace)
    ensures d' == d + [Entry(Warning, msg)]
  {
    DisplayMsg(Warning, msg, d)
  }

  /** `Logger::display_error`. */
  function DisplayError(msg: string, d: Trace): (d': Trace)
    ensures d' == d + [Entry(Error, msg)]
  {
    DisplayMsg(Error, msg, d)
  }

  /** The logger: its only state is the verbosity. */
  datatype Logger = Logger(verbosity: InfoLevel)

  /** True iff a message at `level` passes the logger's filter (`level >= verbosity`). */
  predicate Passes(l: Logger, level: InfoLevel) {
    Le(l.verbosity, level)
  }

  /** `Logger::new`: a fresh logger shows everything except debug messages. */
  function NewLogger(): (l: Logger)
    ensures forall level :: Passes(l, level) <==> level != Debug
  {
    Logger(Warning)
  }

  /** `Logger::verbosity`. */
  function Verbosity(l: Logger): (v: InfoLevel)
    ensures forall level :: Passes(l, level) <==> Le(v, level)
  {
    l.verbosity
  }

  /**
    `Logger::set_verbosity`: afterwards the getter returns the new value and
    the filter is decided by the new value alone.
   */
  function SetVerbosity(l: Logger, v: InfoLevel): (l': Logger)
    ensures Verbosity(l') == v
    ensures forall level :: Passes(l', level) <==> Le(v, level)
  {
    l.(verbosity := v)
  }

  /** Setting the verbosity it already has changes nothing; the last setting wins. */
  lemma SetVerbosityLaws(l: Logger, v: InfoLevel, w: InfoLevel)
    ensures SetVerbosity(l, Verbosity(l)) == l
    ensures SetVerbosity(SetVerbosity(l, v), w) == SetVerbosity(l, w)
  {
  }

  /**
    `Logger::log`: a message that passes the filter is displayed once, at
    the level it was logged at; any other message leaves the trace alone.
    The source reaches `unreachable!` when a level other than the four
    message levels passes the filter, so callers must not do that.
   */
  function Log(l: Logger, level: InfoLevel, msg: string, d: Trace): (d': Trace)
    requires Passes(l, level) ==> IsMessageLevel(level)
    ensures Passes(l, level) ==> d' == d + [Entry(level, msg)]
    ensures !Passes(l, level) ==> d' == d
  {
    if Le(l.verbosity, level) then
      match level
      case Debug => DisplayDebug(msg, d)
      case Info => DisplayInfo(msg, d)
      case Warning => DisplayWarning(msg, d)
      case Error => DisplayError(msg, d)
      case Quiet => assert false; d
      case NonExhaustive => assert false; d
    else d
  }

  /** `Logger::debug`: shows the message, at debug level, only when verbosity is debug. */
  function LogDebug(l: Logger, msg: string, d: Trace): (d': Trace)
    ensures d' == if l.verbosity == Debug then d + [Entry(Debug, msg)] else d
  {
    Log(l, Debug, msg, d)
  }

  /** `Logger::info`: shows the message, at info level, when verbosity is at most info. */
  function LogInfo(l: Logger, msg: string, d: Trace): (d': Trace)
    ensures d' == if Le(l.verbosity, Info) then d + [Entry(Info, msg)] else d
  {
    Log(l, Info, msg, d)
  }

  /** `Logger::warning`: shows the message, at warning level, when verbosity is at most warning. */
  function LogWarning(l: Logger, msg: string, d: Trace): (d': Trace)
    ensures d' == if l.verbosity.Debug? || l.verbosity.Warning? then d + [Entry(Warning, msg)] else d
  {
    Log(l, Warning, msg, d)
  }

  /** `Logger::error`: shows the message, at error level, unless the logger is quiet (or above). */
  function LogError(l: Logger, msg: string, d: Trace): (d': Trace)
    ensures d' == if l.verbosity.Quiet? || l.verbosity.NonExhaustive? then d else d + [Entry(Error, msg)]
  {
    Log(l, Error, msg, d)
  }

  /** A quiet logger displays nothing, whichever shorthand is used. */
  lemma QuietShowsNothing(msg: string, d: Trace)
    ensures var q := Logger(Quiet);
      && LogDebug(q, msg, d) == d
      && LogInfo(q, msg, d) == d
      && LogWarning(q, msg, d) == d
      && LogError(q, msg, d) == d
  {
  }

  /** Reference filter: the entries of `msgs` whose level is at least `v`, in order. */
  function Visible(v: InfoLevel, msgs: seq<Entry>): (r: seq<Entry>)
    ensures |r| <= |msgs|
    ensures forall i :: 0 <= i < |r| ==> Le(v, r[i].level)
    ensures forall e :: e in r ==> e in msgs
    ensures forall e :: e in msgs && Le(v, e.level) ==> e in r
  {
    if msgs == [] then []
    else (if Le(v, msgs[0].level) then [msgs[0]] else []) + Visible(v, msgs[1..])
  }

  /** Logging each entry of `msgs` in turn. */
  function LogAll(l: Logger, msgs: seq<Entry>, d: Trace): Trace
    requires forall i :: 0 <= i < |msgs| && Passes(l, msgs[i].level) ==> IsMessageLevel(msgs[i].level)
  {
    if msgs == [] then d else LogAll(l, msgs[1..], Log(l, msgs[0].level, msgs[0].msg, d))
  }

  /** Logging a batch of messages appends exactly the visible ones, in order. */
  lemma {:induction false} LogAllAppendsVisible(l: Logger, msgs: seq<Entry>, d: Trace)
    requires forall i :: 0 <= i < |msgs| && Passes(l, msgs[i].level) ==> IsMessageLevel(msgs[i].level)
    ensures LogAll(l, msgs, d) == d + Visible(l.verbosity, msgs)
    decreases |msgs|
  {
    if msgs != [] {
      var d1 := Log(l, msgs[0].level, msgs[0].msg, d);
      var rest := msgs[1..];
      assert forall i :: 0 <= i < |rest| ==> rest[i] == msgs[i + 1];
      LogAllAppendsVisible(l, rest, d1);
      var head := if Le(l.verbosity, msgs[0].level) then [msgs[0]] else [];
      var tail := Visible(l.verbosity, rest);
      assert Visible(l.verbosity, msgs) == head + tail;
      assert d1 == d + head;
      Strings.Regroup(d + (head + tail), d, head + tail, head, tail);
    }
  }

  /**
    Raising the verbosity only hides messages: what a stricter logger shows is
    what it would show of the messages a laxer logger shows.
   */
  lemma {:induction false} StricterShowsSubsequence(v: InfoLevel, w: InfoLevel, msgs: seq<Entry>)
    requires Le(v, w)
    ensures Visible(w, msgs) == Visible(w, Visible(v, msgs))
    decreases |msgs|
  {
    if msgs != [] {
      StricterShowsSubsequence(v, w, msgs[1..]);
      var m := msgs[0];
      var tail := Visible(v, msgs[1..]);
      if Le(v, m.level) {
        assert Visible(v, msgs) == [m] + tail;
        assert ([m] + tail)[1..] == tail;
      } else {
        assert Visible(v, msgs) == tail;
      }
    }
  }
}
