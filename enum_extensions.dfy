/**
 * `GetFlagEnumList` of EnumExtensions.cs: the names of the declared members
 * of a flags enumeration whose bits are all set in a value, as
 * `Enum.HasFlag` decides it, in the order `Enum.GetValues` lists them.
 */
module EnumExtensions {

  /** A declared member: its name and its value over a 32-bit underlying type. */
  datatype EnumMember = EnumMember(name: string, value: bv32)

  /** `value.HasFlag(flag)`: every bit of `flag` is set in `value`. */
  predicate HasFlag(value: bv32, flag: bv32) {
    value & flag == flag
  }

  /** The members the `foreach` yields for, in `Enum.GetValues` order. */
  function Flagged(members: seq<EnumMember>, value: bv32): seq<EnumMember> {
    if members == [] then []
    else if HasFlag(value, members[0].value) then [members[0]] + Flagged(members[1..], value)
    else Flagged(members[1..], value)
  }

  function Names(members: seq<EnumMember>): (names: seq<string>)
    ensures |names| == |members|
    ensures forall i :: 0 <= i < |members| ==> names[i] == members[i].name
  {
    if members == [] then [] else [members[0].name] + Names(members[1..])
  }

  /** `GetFlagEnumList(value)`. */
  function FlagEnumList(members: seq<EnumMember>, value: bv32): seq<string> {
    Names(Flagged(members, value))
  }

  /** `a` is `b` with some elements left out, the rest in order. */
  predicate IsSubsequence<T(==)>(a: seq<T>, b: seq<T>)
    decreases |b|
  {
    if a == [] then true
    else if b == [] then false
    else if a[0] == b[0] then IsSubsequence(a[1..], b[1..])
    else IsSubsequence(a, b[1..])
  }

  /** A flag is set exactly when it has no bit outside the value. */
  lemma HasFlagIffNoOtherBits(value: bv32, flag: bv32)
    ensures HasFlag(value, flag) ==> flag & !value == 0
    ensures flag & !value == 0 ==> HasFlag(value, flag)
  {
  }

  /** A member is listed exactly when it is declared and all of its bits are set. */
  lemma {:induction false} FlaggedMembers(members: seq<EnumMember>, value: bv32, m: EnumMember)
    ensures m in Flagged(members, value) <==> m in members && HasFlag(value, m.value)
    decreases |members|
  {
    if members != [] {
      FlaggedMembers(members[1..], value, m);
      assert members == [members[0]] + members[1..];
    }
  }

  /** The listing keeps the `Enum.GetValues` order, leaving members out but never adding or repeating one. */
  lemma {:induction false} FlaggedIsSubsequence(members: seq<EnumMember>, value: bv32)
    ensures IsSubsequence(Flagged(members, value), members)
    decreases |members|
  {
    if members != [] {
      FlaggedIsSubsequence(members[1..], value);
      var rest := Flagged(members[1..], value);
      if HasFlag(value, members[0].value) {
        assert ([members[0]] + rest)[1..] == rest;
      } else if rest != [] && rest[0] == members[0] {
        assert rest[0] in rest;
        FlaggedMembers(members[1..], value, rest[0]);
        assert false;
      }
    }
  }

  /** A member with value zero is listed for every value. */
  lemma ZeroMemberListed(members: seq<EnumMember>, value: bv32, m: EnumMember)
    requires m in members && m.value == 0
    ensures m in Flagged(members, value)
  {
    FlaggedMembers(members, value, m);
  }

  /** A listed member has no bit that is clear in the value. */
  lemma ListedHasNoOtherBits(members: seq<EnumMember>, value: bv32, m: EnumMember)
    requires m in Flagged(members, value)
    ensures m.value & !value == 0
  {
    FlaggedMembers(members, value, m);
    HasFlagIffNoOtherBits(value, m.value);
  }

  /** The names listed are those of the listed members, one each, in order. */
  lemma FlagEnumListNames(members: seq<EnumMember>, value: bv32)
    ensures var names := FlagEnumList(members, value);
      && |names| == |Flagged(members, value)| <= |members|
      && forall i :: 0 <= i < |names| ==> names[i] == Flagged(members, value)[i].name
  {
    FlaggedShorter(members, value);
  }

  lemma {:induction false} FlaggedShorter(members: seq<EnumMember>, value: bv32)
    ensures |Flagged(members, value)| <= |members|
    decreases |members|
  {
    if members != [] {
      FlaggedShorter(members[1..], value);
    }
  }

  /** `None = 0, Read = 1, Write = 2, ReadWrite = 3` with `Read | Write`: every name is listed. */
  lemma ReadWriteExample()
    ensures var members := [EnumMember("None", 0), EnumMember("Read", 1), EnumMember("Write", 2), EnumMember("ReadWrite", 3)];
      && FlagEnumList(members, 3) == ["None", "Read", "Write", "ReadWrite"]
      && FlagEnumList(members, 2) == ["None", "Write"]
  {
  }
}
