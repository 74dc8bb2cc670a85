/** libs/go/p4lib: the options of a client, which come in pairs of opposites. */
module ClientOptions {

  datatype Result<T> = Ok(value: T) | NoSuchOption(option: string)

  /** The known options; each is six places from its opposite. */
  const OPTIONS := ["allwrite", "clobber", "compress", "locked", "modtime", "rmdir",
                    "noallwrite", "noclobber", "nocompress", "unlocked", "nomodtime", "normdir"]

  /** The number of a known option, read off its first letters. */
  ghost function Code(o: string): int {
    if |o| < 4 then -1
    else if o[0] == 'a' then 0
    else if o[0] == 'c' then (if o[1] == 'l' then 1 else 2)
    else if o[0] == 'l' then 3
    else if o[0] == 'm' then 4
    else if o[0] == 'r' then 5
    else if o[0] == 'u' then 9
    else if o[2] == 'a' then 6
    else if o[2] == 'c' then (if o[3] == 'l' then 7 else 8)
    else if o[2] == 'm' then 10
    else 11
  }

  lemma OptionCodes()
    ensures |OPTIONS| == 12 && forall k :: 0 <= k < 12 ==> Code(OPTIONS[k]) == k
  {
    assert Code(OPTIONS[0]) == 0 && Code(OPTIONS[1]) == 1 && Code(OPTIONS[2]) == 2 && Code(OPTIONS[3]) == 3;
    assert Code(OPTIONS[4]) == 4 && Code(OPTIONS[5]) == 5 && Code(OPTIONS[6]) == 6 && Code(OPTIONS[7]) == 7;
    assert Code(OPTIONS[8]) == 8 && Code(OPTIONS[9]) == 9 && Code(OPTIONS[10]) == 10 && Code(OPTIONS[11]) == 11;
  }

  predicate IsOption(o: string) {
    o in OPTIONS
  }

  /** Where an option stands in the list. */
  function Index(o: string, k: nat): (i: nat)
    requires k < |OPTIONS| && o in OPTIONS[k..]
    ensures i < |OPTIONS| && OPTIONS[i] == o
    decreases |OPTIONS| - k
  {
    if OPTIONS[k] == o then k else Index(o, k + 1)
  }

  function Inverse(o: string): (r: string)
    requires IsOption(o)
  {
    assert OPTIONS[0..] == OPTIONS && |OPTIONS| == 12;
    var i := Index(o, 0);
    OPTIONS[if i < 6 then i + 6 else i - 6]
  }

  /** Opposites are options, differ, and are each other's opposites. */
  lemma InverseInvolutive(o: string)
    requires IsOption(o)
    ensures IsOption(Inverse(o)) && Inverse(o) != o && Inverse(Inverse(o)) == o
  {
    OptionCodes();
    assert OPTIONS[0..] == OPTIONS;
    hide Code;
    var i := Index(o, 0);
    var k := if i < 6 then i + 6 else i - 6;
    assert Inverse(o) == OPTIONS[k];
    var j := Index(OPTIONS[k], 0);
    assert Code(OPTIONS[j]) == Code(OPTIONS[k]);
  }

  /** The first place of o or its opposite, or the length. */
  function Clash(options: seq<string>, o: string): (i: nat)
    requires IsOption(o)
    ensures i <= |options|
    ensures i < |options| ==> options[i] == o || options[i] == Inverse(o)
    ensures forall j :: 0 <= j < i ==> options[j] != o && options[j] != Inverse(o)
  {
    if options == [] || options[0] == o || options[0] == Inverse(o) then 0 else 1 + Clash(options[1..], o)
  }

  function Appended(options: seq<string>, o: string): seq<string>
    requires IsOption(o)
  {
    var i := Clash(options, o);
    if i == |options| then options + [o] else options[i := o]
  }

  /** An option that is there stays; its opposite is overwritten; else it goes last. */
  method AppendClientOption(options: seq<string>, option: string) returns (r: Result<seq<string>>)
    ensures IsOption(option) ==> r == Ok(Appended(options, option))
    ensures !IsOption(option) ==> r == NoSuchOption(option)
  {
    if option !in OPTIONS {
      return NoSuchOption(option);
    }
    hide Inverse;
    var inverse := Inverse(option);
    for i := 0 to |options|
      invariant forall j :: 0 <= j < i ==> options[j] != option && options[j] != inverse
    {
      var opt := options[i];
      if opt == option {
        assert options[i := option] == options;
        return Ok(options);
      }
      if inverse == opt {
        return Ok(options[i := option]);
      }
    }
    return Ok(options + [option]);
  }

  /** No option twice and no option beside its opposite. */
  ghost predicate Compatible(options: seq<string>) {
    && (forall i :: 0 <= i < |options| ==> IsOption(options[i]))
    && (forall i, j :: 0 <= i < j < |options| ==> options[i] != options[j] && options[i] != Inverse(options[j]))
  }

  function AppendedAll(options: seq<string>, more: seq<string>): seq<string>
    requires forall o | o in more :: IsOption(o)
    decreases |more|
  {
    if more == [] then options else AppendedAll(Appended(options, more[0]), more[1..])
  }

  lemma AppendedCompatible(options: seq<string>, o: string)
    requires Compatible(options) && IsOption(o)
    ensures Compatible(Appended(options, o))
  {
    hide Inverse, IsOption;
    var now, k := Appended(options, o), Clash(options, o);
    InverseInvolutive(o);
    forall i, j | 0 <= i < j < |now|
      ensures now[i] != now[j] && now[i] != Inverse(now[j])
    {
      if j == k && k < |options| {
        InverseInvolutive(options[j]);
        assert options[i] != options[j] && options[i] != Inverse(options[j]);
      } else if i == k {
        InverseInvolutive(options[i]);
        InverseInvolutive(options[j]);
        assert options[i] != options[j] && options[i] != Inverse(options[j]);
      }
    }
  }

  lemma {:induction false} AppendedAllCompatible(options: seq<string>, more: seq<string>)
    requires Compatible(options) && forall o | o in more :: IsOption(o)
    ensures Compatible(AppendedAll(options, more))
    decreases |more|
  {
    hide Compatible, Appended;
    if more != [] {
      AppendedCompatible(options, more[0]);
      AppendedAllCompatible(Appended(options, more[0]), more[1..]);
    }
  }

  lemma {:induction false} CompatibleKept(options: seq<string>, more: seq<string>)
    requires Compatible(options + more) && forall o | o in more :: IsOption(o)
    ensures AppendedAll(options, more) == options + more
    decreases |more|
  {
    hide Inverse, IsOption;
    if more == [] {
      assert options + more == options;
    } else {
      var o := more[0];
      assert (options + more)[|options|] == o;
      InverseInvolutive(o);
      forall i | 0 <= i < |options|
        ensures options[i] != o && options[i] != Inverse(o)
      {
        assert (options + more)[i] == options[i];
      }
      assert options + [o] + more[1..] == options + more;
      CompatibleKept(options + [o], more[1..]);
    }
  }

  /** Adding the options of a list one by one gives the list back exactly if it has no
      duplicates and no opposites. */
  lemma AppendedAllIff(options: seq<string>)
    requires forall o | o in options :: IsOption(o)
    ensures AppendedAll([], options) == options <==> Compatible(options)
  {
    AppendedAllCompatible([], options);
    if Compatible(options) {
      assert [] + options == options;
      CompatibleKept([], options);
    }
  }
}
