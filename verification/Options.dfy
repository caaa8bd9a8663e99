/** Option names on their way to libzmq: normalize_const_name and normalize_msg_options of
    lib/+zmq/Socket.m, applied twice between recv_multipart and the mex function, and the flag masks
    built in src/core/recv.c and src/core/send.c. */
module Options {
  import opened Native

  const PREFIX := "ZMQ_"

  function UpperChar(c: char): char {
    if 'a' <= c <= 'z' then (c as int - 32) as char else c
  }

  function Upper(s: string): (t: string)
    ensures |t| == |s|
  {
    seq(|s|, i requires 0 <= i < |s| => UpperChar(s[i]))
  }

  /** strrep(s, 'ZMQ_', '') */
  function Remove(s: string): (t: string)
    ensures |t| <= |s|
  {
    if |s| < 4 then s
    else if s[..4] == PREFIX then Remove(s[4..])
    else [s[0]] + Remove(s[1..])
  }

  predicate IsSpace(c: char) {
    c == ' ' || '\t' <= c <= '\r'
  }

  /** strcat drops trailing white space from its arguments. */
  function Strip(s: string): (t: string)
    ensures t <= s && forall i | |t| <= i < |s| :: IsSpace(s[i])
    ensures t != [] ==> !IsSpace(t[|t| - 1])
  {
    if s != [] && IsSpace(s[|s| - 1]) then Strip(s[..|s| - 1]) else s
  }

  /** What normalize_const_name puts after the prefix. */
  function Stem(name: string): string {
    Strip(Remove(Upper(name)))
  }

  function Normalize(name: string): string {
    PREFIX + Stem(name)
  }

  predicate PrefixAt(s: string, i: int) {
    0 <= i && i + 4 <= |s| && s[i..i + 4] == PREFIX
  }

  ghost predicate Contains(s: string) {
    exists i :: PrefixAt(s, i)
  }

  /** Removing changes nothing exactly when there is nothing to remove. */
  lemma {:induction false} RemoveChanges(s: string)
    ensures Remove(s) == s <==> !Contains(s)
    decreases |s|
  {
    if |s| >= 4 {
      var rest := s[1..];
      if s[..4] == PREFIX {
        assert PrefixAt(s, 0);
      } else {
        RemoveChanges(rest);
        assert s == [s[0]] + rest;
        forall i ensures PrefixAt(s, i) <==> PrefixAt(rest, i - 1) {
          if 1 <= i && i + 4 <= |s| { assert s[i..i + 4] == rest[i - 1..i + 3]; }
        }
        if Contains(rest) {
          var i :| PrefixAt(rest, i);
          assert PrefixAt(s, i + 1);
        }
      }
    }
  }

  /** and taking out one occurrence leaves both sides to be cleared on their own: no occurrence of the
      prefix overlaps another. */
  lemma {:induction false} RemoveSplits(a: string, b: string)
    ensures Remove(a + PREFIX + b) == Remove(a) + Remove(b)
    decreases |a|
  {
    var s := a + PREFIX + b;
    if a == [] {
      assert s[..4] == PREFIX && s[4..] == b;
    } else if |a| >= 4 && a[..4] == PREFIX {
      assert s[..4] == PREFIX && s[4..] == a[4..] + PREFIX + b;
      RemoveSplits(a[4..], b);
    } else {
      assert s[..4] != PREFIX by { NoOverlap(a, b); }
      assert s[0] == a[0] && s[1..] == a[1..] + PREFIX + b;
      RemoveSplits(a[1..], b);
      assert Remove(a) == [a[0]] + Remove(a[1..]);
    }
  }

  lemma NoOverlap(a: string, b: string)
    requires a != [] && (|a| >= 4 ==> a[..4] != PREFIX)
    ensures (a + PREFIX + b)[..4] != PREFIX
  {
    var s := a + PREFIX + b;
    if |a| >= 4 {
      assert s[..4] == a[..4];
    } else {
      assert s[|a|] == PREFIX[0] && s[..4][|a|] == s[|a|];
    }
  }

  /** Names are normalized in any letter case, with or without the prefix. */
  lemma NormalizesNames(name: string, x: string)
    requires IsUpper(x) && !Contains(x) && (x != [] ==> !IsSpace(x[|x| - 1]))
    requires var full := if |name| == |x| then x else PREFIX + x;
             |name| == |full| && forall i | 0 <= i < |full| :: SameLetter(name[i], full[i])
    ensures Normalize(name) == PREFIX + x
  {
    var full := if |name| == |x| then x else PREFIX + x;
    forall i | 0 <= i < |full| ensures UpperChar(name[i]) == full[i] {
      assert IsUpper(PREFIX);
      if |name| != |x| && i >= 4 { assert full[i] == x[i - 4]; }
    }
    assert Upper(name) == full;
    RemoveChanges(x);
    if full != x {
      RemoveSplits([], x);
      assert [] + PREFIX + x == full;
    }
    StripFixes(x);
  }

  ghost predicate IsUpper(s: string) {
    forall i | 0 <= i < |s| :: UpperChar(s[i]) == s[i]
  }

  lemma UpperFixes(s: string)
    ensures IsUpper(Upper(s))
    ensures IsUpper(s) ==> Upper(s) == s
  {
    forall i | 0 <= i < |s| ensures UpperChar(Upper(s)[i]) == Upper(s)[i] {}
  }

  lemma {:induction false} RemoveKeepsUpper(s: string)
    requires IsUpper(s)
    ensures IsUpper(Remove(s))
    decreases |s|
  {
    if |s| >= 4 {
      if s[..4] == PREFIX { RemoveKeepsUpper(s[4..]); } else { RemoveKeepsUpper(s[1..]); }
    }
  }

  lemma StripFixes(s: string)
    requires s != [] ==> !IsSpace(s[|s| - 1])
    ensures Strip(s) == s
  {
  }

  /** Normalizing a normalized name removes what prefix is still in its stem. */
  lemma NormalizedStem(name: string)
    ensures Stem(Normalize(name)) == Strip(Remove(Stem(name)))
  {
    UpperFixes(name);
    RemoveKeepsUpper(Upper(name));
    assert IsUpper(Normalize(name));
    UpperFixes(Normalize(name));
    assert Normalize(name)[..4] == PREFIX && Normalize(name)[4..] == Stem(name);
  }

  /** normalize_const_name is idempotent on a name exactly when taking the prefix out of the
      upper-cased name leaves no new prefix behind. */
  lemma NormalizeTwice(name: string)
    ensures Normalize(Normalize(name)) == Normalize(name) <==> !Contains(Stem(name))
  {
    var y := Stem(name);
    NormalizedStem(name);
    RemoveChanges(y);
    if Contains(y) {
      RemoveShrinks(y);
      assert |Stem(Normalize(name))| < |y|;
      assert Normalize(Normalize(name))[4..] == Stem(Normalize(name)) && Normalize(name)[4..] == y;
    } else {
      StripFixes(y);
    }
  }

  lemma {:induction false} RemoveShrinks(s: string)
    ensures |Remove(s)| == |s| ==> Remove(s) == s
    decreases |s|
  {
    if |s| >= 4 && s[..4] != PREFIX {
      RemoveShrinks(s[1..]);
    }
  }

  lemma {:induction false} RemoveNothing(s: string)
    requires forall i | 0 <= i < |s| :: s[i] != 'M'
    ensures Remove(s) == s
    decreases |s|
  {
    if |s| >= 4 {
      assert s[..4][1] != PREFIX[1];
      RemoveNothing(s[1..]);
      assert s == [s[0]] + s[1..];
    }
  }

  lemma RemoveStep(a: char, s: string)
    requires |s| >= 3 && (a != PREFIX[0] || s[0] != PREFIX[1] || s[1] != PREFIX[2])
    ensures Remove([a] + s) == [a] + Remove(s)
  {
    assert ([a] + s)[..4][0] == a && ([a] + s)[..4][1] == s[0] && ([a] + s)[..4][2] == s[1];
    assert ([a] + s)[1..] == s;
  }

  lemma RemovePrefix(s: string)
    requires forall i | 0 <= i < |s| :: s[i] != 'M'
    ensures Remove(PREFIX + s) == s
  {
    assert (PREFIX + s)[..4] == PREFIX && (PREFIX + s)[4..] == s;
    RemoveNothing(s);
  }

  /** A name that is not a fixed point, because taking out one prefix makes another. */
  lemma NotIdempotent()
    ensures Stem("zmzmq_q_dontwait") == PREFIX + "DONTWAIT"
    ensures Stem(Normalize("zmzmq_q_dontwait")) == "DONTWAIT"
  {
    hide Strip, Remove;
    var q := "Q_DONTWAIT";
    assert Upper("zmzmq_q_dontwait") == "Z" + ("M" + (PREFIX + q));
    hide Upper;
    RemovePrefix(q);
    RemoveStep('M', PREFIX + q);
    RemoveStep('Z', "M" + (PREFIX + q));
    assert "Z" + ("M" + q) == PREFIX + "DONTWAIT";
    StripFixes(PREFIX + "DONTWAIT");
    NormalizedStem("zmzmq_q_dontwait");
    RemovePrefix("DONTWAIT");
    StripFixes("DONTWAIT");
  }

  // ---------------------------------------------------------------- arguments

  datatype Arg = Number(n: nat) | Name(name: string)

  /** What Socket.m accepts: names, and possibly one number before them. */
  predicate Acceptable(args: seq<Arg>) {
    forall i | 0 < i < |args| :: args[i].Name?
  }

  function NamesOf(args: seq<Arg>): (names: seq<string>)
    requires forall i | 0 <= i < |args| :: args[i].Name?
    ensures |names| == |args| && forall i | 0 <= i < |names| :: names[i] == args[i].name
  {
    seq(|args|, i requires 0 <= i < |args| => args[i].name)
  }

  function NormalizeAll(names: seq<string>): (out: seq<string>)
    ensures |out| == |names| && forall i | 0 <= i < |out| :: out[i] == Normalize(names[i])
  {
    seq(|names|, i requires 0 <= i < |names| => Normalize(names[i]))
  }

  method NormalizeMsgOptions(defaultBufferLength: nat, args: seq<Arg>) returns (buffLen: nat, options: seq<string>)
    requires Acceptable(args)
    ensures args != [] && args[0].Number? ==> buffLen == args[0].n && options == NormalizeAll(NamesOf(args[1..]))
    ensures args == [] || args[0].Name? ==> buffLen == defaultBufferLength && options == NormalizeAll(NamesOf(args))
  {
    buffLen, options := defaultBufferLength, [];
    if args != [] {
      var offset := 0;
      if args[0].Number? { buffLen, offset := args[0].n, 1; }
      for n := 0 to |args| - offset
        invariant |options| == n && forall i | 0 <= i < n :: options[i] == Normalize(args[i + offset].name)
      {
        options := options + [Normalize(args[n + offset].name)];
      }
    }
  }

  // ---------------------------------------------------------------- flags

  const DONTWAIT: bv32 := 1
  const SNDMORE: bv32 := 2
  const DONTWAIT_NAME := "ZMQ_DONTWAIT"
  const SNDMORE_NAME := "ZMQ_SNDMORE"

  datatype Side = Sending | Receiving

  predicate Known(side: Side, option: string) {
    option == DONTWAIT_NAME || (side == Sending && option == SNDMORE_NAME)
  }

  /** The mask a list of options stands for, as a matter of membership only. */
  function MaskOf(options: seq<string>): bv32 {
    (if DONTWAIT_NAME in options then DONTWAIT else 0) | (if SNDMORE_NAME in options then SNDMORE else 0)
  }

  function Bit(option: string): bv32 {
    if option == DONTWAIT_NAME then DONTWAIT else if option == SNDMORE_NAME then SNDMORE else 0
  }

  /** The mask as it is accumulated. */
  function OrAll(options: seq<string>): bv32 {
    if options == [] then 0 else OrAll(options[..|options| - 1]) | Bit(options[|options| - 1])
  }

  /** The mask depends on which options are given, not on their order or repetition. */
  lemma {:induction false} OrIsMembership(options: seq<string>)
    ensures OrAll(options) == MaskOf(options)
    decreases |options|
  {
    if options != [] {
      var n := |options| - 1;
      OrIsMembership(options[..n]);
      MaskSnoc(options[..n], options[n]);
      hide MaskOf, Bit;
      assert options == options[..n] + [options[n]];
    }
  }

  lemma MaskSnoc(options: seq<string>, last: string)
    ensures MaskOf(options + [last]) == MaskOf(options) | Bit(last)
  {
    var all := options + [last];
    assert DONTWAIT_NAME in all <==> DONTWAIT_NAME in options || last == DONTWAIT_NAME;
    assert SNDMORE_NAME in all <==> SNDMORE_NAME in options || last == SNDMORE_NAME;
    assert |DONTWAIT_NAME| != |SNDMORE_NAME|;
    OrTwice(if DONTWAIT_NAME in options then DONTWAIT else 0, if SNDMORE_NAME in options then SNDMORE else 0);
  }

  lemma OrTwice(a: bv32, b: bv32)
    ensures (a | b) | 0 == a | b
    ensures a == DONTWAIT || a == 0 ==> (a | b) | DONTWAIT == DONTWAIT | b
    ensures b == SNDMORE || b == 0 ==> (a | b) | SNDMORE == a | SNDMORE
  {
  }

  /** One option: the bit to or into the mask, or an error. */
  function OneFlag(side: Side, option: string): (bit: Option<bv32>)
    ensures bit.Some? <==> Known(side, option)
    ensures bit.Some? ==> bit.value == Bit(option)
  {
    if side == Sending && option == SNDMORE_NAME then Some(SNDMORE)
    else if option == DONTWAIT_NAME then Some(DONTWAIT)
    else None
  }

  /** configure_flag of send.c and recv.c; one unknown option is an error. */
  method ConfigureFlag(side: Side, options: seq<string>) returns (flag: Option<bv32>)
    ensures flag.Some? <==> forall i | 0 <= i < |options| :: Known(side, options[i])
    ensures flag.Some? ==> flag.value == MaskOf(options)
  {
    hide MaskOf, OneFlag, Known, Bit;
    var mask: bv32 := 0;
    for i := 0 to |options|
      invariant forall k | 0 <= k < i :: Known(side, options[k])
      invariant mask == OrAll(options[..i])
    {
      assert options[..i + 1][..i] == options[..i];
      var bit := OneFlag(side, options[i]);
      if bit.None? { return None; }
      mask := mask | bit.value;
    }
    assert options[..|options|] == options;
    OrIsMembership(options);
    return Some(mask);
  }

  ghost predicate AllKnown(options: seq<string>) {
    forall i | 0 <= i < |options| :: Known(Receiving, options[i])
  }

  lemma DontWaitIsFixed(name: string)
    requires Normalize(name) == DONTWAIT_NAME
    ensures Normalize(Normalize(name)) == Normalize(name)
  {
    assert Normalize(name)[4..] == Stem(name) && DONTWAIT_NAME[4..] == "DONTWAIT";
    RemoveNothing("DONTWAIT");
    RemoveChanges("DONTWAIT");
    NormalizeTwice(name);
  }

  lemma AcceptedTwice(name: string)
    ensures Known(Receiving, Normalize(Normalize(name))) <==> Strip(Remove(Stem(name))) == "DONTWAIT"
  {
    hide Stem, Strip, Remove;
    NormalizedStem(name);
    assert Normalize(Normalize(name))[4..] == Strip(Remove(Stem(name)));
  }

  // ---------------------------------------------------------------- one receive call

  /** What a call of the mex function recv comes to: it returns without an output, it raises an error,
      or it calls zmq_recv with this length and this flag. */
  datatype Call = NoOutput | UnknownFlag | Receives(length: nat, flag: bv32)

  ghost function Outcome(length: nat, options: seq<string>): Call {
    if length == 0 then NoOutput else if AllKnown(options) then Receives(length, MaskOf(options)) else UnknownFlag
  }

  function LengthOf(defaultLength: nat, args: seq<Arg>): nat {
    if args != [] && args[0].Number? then args[0].n else defaultLength
  }

  function UserNames(args: seq<Arg>): seq<string>
    requires Acceptable(args)
  {
    if args != [] && args[0].Number? then NamesOf(args[1..]) else NamesOf(args)
  }

  const DEFAULT_BUFFER_LENGTH := 255

  /** recv.c, on what follows the socket: a zero length is found before the flags are looked at. */
  method CoreRecv(args: seq<Arg>) returns (call: Call)
    requires Acceptable(args)
    ensures call == Outcome(LengthOf(DEFAULT_BUFFER_LENGTH, args), UserNames(args))
  {
    hide MaskOf, Known;
    var length, start := DEFAULT_BUFFER_LENGTH, 0;
    if args != [] && args[0].Number? { length, start := args[0].n, 1; }
    if length == 0 { return NoOutput; }
    var flag := ConfigureFlag(Receiving, NamesOf(args[start..]));
    assert args[0..] == args;
    return if flag.None? then UnknownFlag else Receives(length, flag.value);
  }

  function Args(length: nat, options: seq<string>): (args: seq<Arg>)
    ensures Acceptable(args) && UserNames(args) == options
  {
    [Number(length)] + seq(|options|, i requires 0 <= i < |options| => Name(options[i]))
  }

  /** Socket.recv */
  method SocketRecv(defaultBufferLength: nat, args: seq<Arg>) returns (call: Call)
    requires Acceptable(args)
    ensures call == Outcome(LengthOf(defaultBufferLength, args), NormalizeAll(UserNames(args)))
  {
    hide Normalize, Outcome;
    var buffLen, options := NormalizeMsgOptions(defaultBufferLength, args);
    call := CoreRecv(Args(buffLen, options));
  }

  /** Each receive of Socket.recv_multipart; they all pass the same arguments. */
  method SocketRecvMultipart(defaultBufferLength: nat, args: seq<Arg>) returns (call: Call)
    requires Acceptable(args)
    ensures call == Outcome(LengthOf(defaultBufferLength, args), NormalizeAll(NormalizeAll(UserNames(args))))
  {
    hide Normalize, Outcome;
    var buffLen, options := NormalizeMsgOptions(defaultBufferLength, args);
    call := SocketRecv(defaultBufferLength, Args(buffLen, options));
  }

  lemma OutcomeIs(length: nat, args: seq<Arg>, options: seq<string>, f: string -> string)
    requires Acceptable(args) && |options| == |UserNames(args)|
    requires forall i | 0 <= i < |options| :: options[i] == f(UserNames(args)[i])
    ensures Outcome(length, options) ==
            if length == 0 then NoOutput
            else if forall i | 0 <= i < |args| && args[i].Name? :: f(args[i].name) == "ZMQ_DONTWAIT"
            then Receives(length, if exists i :: 0 <= i < |args| && args[i].Name? then 1 else 0)
            else UnknownFlag
  {
    hide MaskOf, UserNames;
    NamesAmong(args, f);
    if forall i | 0 <= i < |options| :: f(UserNames(args)[i]) == "ZMQ_DONTWAIT" {
      assert AllKnown(options);
      DontWaitMask(options);
    } else {
      var i :| 0 <= i < |options| && f(UserNames(args)[i]) != "ZMQ_DONTWAIT";
      assert !Known(Receiving, options[i]);
    }
  }

  /** The names of the user are the arguments that are names. */
  lemma NamesAmong(args: seq<Arg>, f: string -> string)
    requires Acceptable(args)
    ensures (exists i :: 0 <= i < |args| && args[i].Name?) <==> UserNames(args) != []
    ensures (forall i | 0 <= i < |args| && args[i].Name? :: f(args[i].name) == "ZMQ_DONTWAIT") <==>
            (forall i | 0 <= i < |UserNames(args)| :: f(UserNames(args)[i]) == "ZMQ_DONTWAIT")
  {
    var names := UserNames(args);
    var skip := |args| - |names|;
    if names != [] { assert args[skip].Name?; }
    if forall i | 0 <= i < |args| && args[i].Name? :: f(args[i].name) == "ZMQ_DONTWAIT" {
      forall i | 0 <= i < |names| ensures f(names[i]) == "ZMQ_DONTWAIT" {
        assert args[i + skip].Name? && names[i] == args[i + skip].name;
      }
    }
    if forall i | 0 <= i < |names| :: f(names[i]) == "ZMQ_DONTWAIT" {
      forall i | 0 <= i < |args| && args[i].Name? ensures f(args[i].name) == "ZMQ_DONTWAIT" {
        assert args[i].name == names[i - skip];
      }
    }
  }

  lemma DontWaitMask(options: seq<string>)
    requires AllKnown(options)
    ensures MaskOf(options) == if options == [] then 0 else 1
  {
    assert |SNDMORE_NAME| == 11 && |DONTWAIT_NAME| == 12;
    assert SNDMORE_NAME !in options;
    if options != [] { assert options[0] == DONTWAIT_NAME; }
    assert DONTWAIT | 0 == 1 && (0 as bv32) | 0 == 0;
  }

  /** What the three calls come to, from the arguments alone: a length of 0 ends them at once; otherwise
      all names must be DONTWAIT when they reach the mex function, taken as they are, normalized, or
      normalized twice, and zmq_recv gets exactly the length asked for, or the default, and the flag 1
      if there is any name. */
  lemma CallsAre(args: seq<Arg>, defaultLength: nat)
    requires Acceptable(args)
    ensures var length := if args != [] && args[0].Number? then args[0].n else 255;
            && Outcome(LengthOf(DEFAULT_BUFFER_LENGTH, args), UserNames(args)) ==
               (if length == 0 then NoOutput
                else if forall i | 0 <= i < |args| && args[i].Name? :: args[i].name == "ZMQ_DONTWAIT"
                then Receives(length, if exists i :: 0 <= i < |args| && args[i].Name? then 1 else 0)
                else UnknownFlag)
    ensures var length := if args != [] && args[0].Number? then args[0].n else defaultLength;
            && Outcome(LengthOf(defaultLength, args), NormalizeAll(UserNames(args))) ==
               (if length == 0 then NoOutput
                else if forall i | 0 <= i < |args| && args[i].Name? :: Normalize(args[i].name) == "ZMQ_DONTWAIT"
                then Receives(length, if exists i :: 0 <= i < |args| && args[i].Name? then 1 else 0)
                else UnknownFlag)
            && Outcome(LengthOf(defaultLength, args), NormalizeAll(NormalizeAll(UserNames(args)))) ==
               (if length == 0 then NoOutput
                else if forall i | 0 <= i < |args| && args[i].Name? ::
                          Normalize(Normalize(args[i].name)) == "ZMQ_DONTWAIT"
                then Receives(length, if exists i :: 0 <= i < |args| && args[i].Name? then 1 else 0)
                else UnknownFlag)
  {
    hide Outcome, UserNames, Normalize;
    var names := UserNames(args);
    OutcomeIs(LengthOf(DEFAULT_BUFFER_LENGTH, args), args, names, x => x);
    OutcomeIs(LengthOf(defaultLength, args), args, NormalizeAll(names), x => Normalize(x));
    OutcomeIs(LengthOf(defaultLength, args), args, NormalizeAll(NormalizeAll(names)), x => Normalize(Normalize(x)));
  }

  /** The names reach the mex function normalized once from recv and twice from recv_multipart, the
      length unchanged from both.  The two calls come to the same exactly when the length is 0, or
      some name does not become DONTWAIT even after a second removal of the prefix (both fail), or
      one removal leaves no prefix in any name (the names are the same); and whenever recv receives,
      recv_multipart receives with the same length and the same flag. */
  lemma Forwarding(length: nat, names: seq<string>)
    ensures var once, twice := Outcome(length, NormalizeAll(names)), Outcome(length, NormalizeAll(NormalizeAll(names)));
            && (once == twice <==>
                  || length == 0
                  || (exists i | 0 <= i < |names| :: Strip(Remove(Stem(names[i]))) != "DONTWAIT")
                  || (forall i | 0 <= i < |names| :: !Contains(Stem(names[i]))))
            && (once.Receives? ==> twice == once)
            && (once.NoOutput? <==> twice.NoOutput?)
  {
    hide MaskOf, Normalize, Stem, Strip, Remove, Known, Contains;
    var once, twice := NormalizeAll(names), NormalizeAll(NormalizeAll(names));
    forall i | 0 <= i < |names|
      ensures Known(Receiving, once[i]) ==> twice[i] == once[i]
      ensures !Contains(Stem(names[i])) <==> twice[i] == once[i]
      ensures Known(Receiving, twice[i]) <==> Strip(Remove(Stem(names[i]))) == "DONTWAIT"
    {
      if Known(Receiving, once[i]) { KnownIsFixed(names[i]); }
      NormalizeTwice(names[i]);
      AcceptedTwice(names[i]);
    }
    if forall i | 0 <= i < |names| :: !Contains(Stem(names[i])) { assert twice == once; }
    if AllKnown(once) { assert twice == once; }
  }

  lemma KnownIsFixed(name: string)
    requires Known(Receiving, Normalize(name))
    ensures Normalize(Normalize(name)) == Normalize(name)
  {
    hide Normalize;
    DontWaitIsFixed(name);
  }

  /** The two calls can disagree. */
  lemma ForwardingDiffers(names: seq<string>)
    requires names == ["zmzmq_q_dontwait"]
    ensures Outcome(1, NormalizeAll(names)) == UnknownFlag
    ensures Outcome(1, NormalizeAll(NormalizeAll(names))) == Receives(1, DONTWAIT)
  {
    hide Stem;
    NotIdempotent();
    var once, twice := NormalizeAll(names), NormalizeAll(NormalizeAll(names));
    assert once[0] == PREFIX + (PREFIX + "DONTWAIT") && |once[0]| == 16;
    assert twice[0] == PREFIX + "DONTWAIT";
    assert twice[0] == DONTWAIT_NAME && |SNDMORE_NAME| == 11 && |DONTWAIT_NAME| == 12;
    assert SNDMORE_NAME !in twice;
    assert MaskOf(twice) == DONTWAIT | 0 == DONTWAIT;
  }
}
