/**
  The logic of the teacher page (client/src/pages/Teacher.jsx): the poll form's
  option edits, the validation and normalisation `sendPoll` applies before it
  emits `new_poll`, and the tally it computes for each past poll.
 */
module Teacher {
  import opened Wrappers
  import opened Dict
  import opened Results
  import opened Protocol

  /** The characters `String.prototype.trim` removes: white space and line terminators. */
  predicate IsSpace(c: char)
  {
    || c == '\t' || c == '\n' || c == '\U{000B}' || c == '\U{000C}' || c == '\r' || c == ' '
    || c == '\U{00A0}' || c == '\U{1680}' || ('\U{2000}' <= c <= '\U{200A}')
    || c == '\U{2028}' || c == '\U{2029}' || c == '\U{202F}' || c == '\U{205F}'
    || c == '\U{3000}' || c == '\U{FEFF}'
  }

  /** Neither starts nor ends with white space. */
  predicate Trimmed(s: string)
  {
    s == [] || (!IsSpace(s[0]) && !IsSpace(s[|s| - 1]))
  }

  /** The length of the white-space prefix of `s`. */
  function LeadingSpace(s: string): (n: nat)
    ensures n <= |s|
    ensures forall i :: 0 <= i < n ==> IsSpace(s[i])
    ensures n < |s| ==> !IsSpace(s[n])
  {
    if s != [] && IsSpace(s[0]) then 1 + LeadingSpace(s[1..]) else 0
  }

  /** Where the white-space suffix of `s` starts. */
  function TrailingSpace(s: string): (m: nat)
    ensures m <= |s|
    ensures forall i :: m <= i < |s| ==> IsSpace(s[i])
    ensures 0 < m ==> !IsSpace(s[m - 1])
  {
    if s != [] && IsSpace(s[|s| - 1]) then TrailingSpace(s[..|s| - 1]) else |s|
  }

  /**
    `s.trim()`: the slice of `s` left after dropping its white-space prefix and
    suffix (`TrimSlice` states which slice that is).
   */
  function Trim(s: string): (t: string)
    ensures Trimmed(t)
  {
    var a := LeadingSpace(s);
    var m := TrailingSpace(s[a..]);
    assert 0 < m ==> s[a + m - 1] == s[a..][m - 1];
    s[a..a + m]
  }

  /**
    `Trim` keeps the slice that starts at the end of the white-space prefix,
    and everything after that slice is white space.
   */
  lemma TrimSlice(s: string)
    ensures LeadingSpace(s) + |Trim(s)| <= |s|
    ensures Trim(s) == s[LeadingSpace(s)..LeadingSpace(s) + |Trim(s)|]
    ensures forall i :: LeadingSpace(s) + |Trim(s)| <= i < |s| ==> IsSpace(s[i])
  {
    var a := LeadingSpace(s);
    var m := TrailingSpace(s[a..]);
    forall i | a + m <= i < |s| ensures IsSpace(s[i]) {
      assert s[i] == s[a..][i - a];
    }
  }

  /** `Trim` gives the empty string exactly when the whole string is white space. */
  lemma TrimEmpty(s: string)
    ensures Trim(s) == [] <==> forall i :: 0 <= i < |s| ==> IsSpace(s[i])
  {
    var a := LeadingSpace(s);
    var m := TrailingSpace(s[a..]);
    if a < |s| {
      assert s[a..][0] == s[a];
    }
  }

  /** Trimming a trimmed string changes nothing. */
  lemma TrimTrimmed(s: string)
    requires Trimmed(s)
    ensures Trim(s) == s
  {
    assert LeadingSpace(s) == 0;
    assert s[0..] == s;
  }

  /** Trimming twice is trimming once. */
  lemma TrimIdempotent(s: string)
    ensures Trim(Trim(s)) == Trim(s)
  {
    TrimTrimmed(Trim(s));
  }

  /** `options.map((o) => o.trim()).filter(Boolean)`. */
  function Normalise(options: seq<string>): (r: seq<string>)
    ensures |r| <= |options|
    ensures forall i :: 0 <= i < |r| ==> r[i] != "" && Trimmed(r[i])
  {
    if options == [] then []
    else
      var t := Trim(options[|options| - 1]);
      Normalise(options[..|options| - 1]) + (if t != "" then [t] else [])
  }

  /** The option field is empty once trimmed, so `filter(Boolean)` drops it. */
  predicate Blank(s: string)
  {
    Trim(s) == ""
  }

  /** The positions of the options that survive normalisation, in increasing order. */
  function Kept(options: seq<string>): seq<nat>
  {
    if options == [] then []
    else
      Kept(options[..|options| - 1])
      + (if !Blank(options[|options| - 1]) then [|options| - 1] else [])
  }

  /** The surviving positions are in range and strictly increasing. */
  lemma {:induction false} KeptIncreasing(options: seq<string>)
    ensures forall k :: 0 <= k < |Kept(options)| ==> Kept(options)[k] < |options|
    ensures forall k, l :: 0 <= k < l < |Kept(options)| ==> Kept(options)[k] < Kept(options)[l]
  {
    if options != [] {
      KeptIncreasing(options[..|options| - 1]);
    }
  }

  /** A position survives exactly when its option is not blank after trimming. */
  lemma KeptExactly(options: seq<string>)
    ensures forall i :: 0 <= i < |options| ==> (i in Kept(options) <==> !Blank(options[i]))
  {
    forall i | 0 <= i < |options| ensures i in Kept(options) <==> !Blank(options[i]) {
      KeptAt(options, i);
    }
  }

  /** `KeptExactly` for one position, by induction on the options before the last. */
  lemma {:induction false} KeptAt(options: seq<string>, i: nat)
    requires i < |options|
    ensures i in Kept(options) <==> !Blank(options[i])
  {
    var n := |options| - 1;
    var init := options[..n];
    var tail := if !Blank(options[n]) then [n] else [];
    assert Kept(options) == Kept(init) + tail;
    if i < n {
      KeptAt(init, i);
      assert options[i] == init[i];
      assert i !in tail;
      assert i in Kept(options) <==> i in Kept(init);
    } else {
      KeptIncreasing(init);
      assert n !in Kept(init);
      assert i in Kept(options) <==> i in tail;
    }
  }

  /**
    Normalisation keeps the options in their relative order: the k-th option
    sent is the trimmed form of the option at the k-th surviving position
    (`KeptIncreasing`, `KeptExactly`).
   */
  lemma {:induction false} NormaliseKeepsOrder(options: seq<string>)
    ensures |Kept(options)| == |Normalise(options)|
    ensures forall k :: 0 <= k < |Kept(options)| ==>
      Kept(options)[k] < |options| && Normalise(options)[k] == Trim(options[Kept(options)[k]])
  {
    KeptIncreasing(options);
    if options != [] {
      var init := options[..|options| - 1];
      NormaliseKeepsOrder(init);
      KeptIncreasing(init);
      assert forall i :: 0 <= i < |init| ==> init[i] == options[i];
    }
  }

  /** Normalising normalised options changes nothing. */
  lemma {:induction false} NormaliseIdempotent(options: seq<string>)
    requires forall i :: 0 <= i < |options| ==> options[i] != "" && Trimmed(options[i])
    ensures Normalise(options) == options
  {
    if options != [] {
      TrimTrimmed(options[|options| - 1]);
      NormaliseIdempotent(options[..|options| - 1]);
      assert options == options[..|options| - 1] + [options[|options| - 1]];
    }
  }

  /** `addOption`: a new blank option field at the end. */
  function AddOption(options: seq<string>): (r: seq<string>)
    ensures |r| == |options| + 1
    ensures r[..|options|] == options && r[|options|] == ""
  {
    options + [""]
  }

  /** A blank field added by `addOption` never reaches the server. */
  lemma {:induction false} AddOptionSendsNothing(options: seq<string>)
    ensures Normalise(AddOption(options)) == Normalise(options)
  {
    var r := AddOption(options);
    assert r[..|r| - 1] == options;
    assert Trim("") == "";
  }

  /**
    `handleOptionChange(index, value)`: copy the option list, overwrite one
    position. The index always comes from rendering the list, so it is in range.
   */
  method HandleOptionChange(options: seq<string>, index: nat, value: string) returns (updated: seq<string>)
    requires index < |options|
    ensures |updated| == |options|
    ensures updated[index] == value
    ensures forall i :: 0 <= i < |options| && i != index ==> updated[i] == options[i]
  {
    var copy := new string[|options|](i requires 0 <= i < |options| => options[i]);
    copy[index] := value;
    updated := copy[..];
  }

  /** The form's state: the question field, the option fields and the time limit. */
  datatype Form = Form(question: string, options: seq<string>, duration: int)

  /** What `sendPoll` does: the poll it emits, if any, and the form afterwards. */
  datatype SendOutcome = SendOutcome(emitted: Option<PollData>, form: Form)

  /** The blank form `sendPoll` resets to after emitting; the time limit is kept. */
  function ClearedForm(duration: int): Form
  {
    Form("", ["", ""], duration)
  }

  /**
    `sendPoll`: nothing is emitted, and the form is kept, when the trimmed
    question is empty or fewer than two options remain after trimming and
    dropping blanks. Otherwise the trimmed question and the normalised options
    are emitted with the time limit, and the form is cleared.
   */
  function SendPoll(f: Form): (out: SendOutcome)
    ensures out.emitted.None? <==> Trim(f.question) == "" || |Normalise(f.options)| < 2
    ensures out.emitted.None? ==> out.form == f
    ensures out.emitted.Some? ==>
      var p := out.emitted.value;
      && p.question == Trim(f.question) && p.options == Normalise(f.options)
      && p.question != "" && Trimmed(p.question)
      && |p.options| >= 2
      && (forall i :: 0 <= i < |p.options| ==> p.options[i] != "" && Trimmed(p.options[i]))
      && p.duration == f.duration
      && out.form == ClearedForm(f.duration)
  {
    var trimmedOptions := Normalise(f.options);
    if Trim(f.question) == "" || |trimmedOptions| < 2 then
      SendOutcome(None, f)
    else
      SendOutcome(Some(PollData(Trim(f.question), trimmedOptions, f.duration)), ClearedForm(f.duration))
  }

  /** A form that is already clean is sent exactly as it stands. */
  lemma SendCleanForm(f: Form)
    requires f.question != "" && Trimmed(f.question)
    requires |f.options| >= 2
    requires forall i :: 0 <= i < |f.options| ==> f.options[i] != "" && Trimmed(f.options[i])
    ensures SendPoll(f).emitted == Some(PollData(f.question, f.options, f.duration))
  {
    TrimTrimmed(f.question);
    NormaliseIdempotent(f.options);
  }

  /** A past poll as the page receives it; `answers` may be missing. */
  datatype PastPoll = PastPoll(question: string, options: seq<string>, answers: Option<Dict<string>>)

  /**
    `getResults(poll)` on the teacher page: the same tally as the server's,
    with a missing answers object read as an empty one.
   */
  method GetResults(poll: PastPoll) returns (counts: Dict<nat>)
    ensures counts == Tally(poll.options, if poll.answers.Some? then Values(poll.answers.value) else [])
    ensures poll.answers.None? ==> forall i :: 0 <= i < |counts| ==> counts[i].val == 0
  {
    var answers := if poll.answers.Some? then poll.answers.value else [];
    counts := CountVotes(poll.options, Values(answers));
  }
}
