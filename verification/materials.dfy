/** Materials and the display-name formatter of AutoCompressor.formatMaterialName. */
module Materials {

  /** A Bukkit Material, identified by its enum constant name, which is what `toString()` returns. */
  datatype Material = Material(name: string)

  const AIR := Material("AIR")
  const COBBLESTONE := Material("COBBLESTONE")
  const STONE := Material("STONE")

  // Letter classification and case mapping on ASCII. Material constant names are ASCII; assuming a
  // default locale that lowers A-Z to a-z, these are where Java's Character.isAlphabetic /
  // toUpperCase / toLowerCase act on them.

  predicate IsUpper(c: char) { 'A' <= c <= 'Z' }

  predicate IsLower(c: char) { 'a' <= c <= 'z' }

  predicate IsAlphabetic(c: char) { IsUpper(c) || IsLower(c) }

  function ToLower(c: char): char {
    if IsUpper(c) then (c as int + 32) as char else c
  }

  function ToUpper(c: char): char {
    if IsLower(c) then (c as int - 32) as char else c
  }

  /** The name after `replace('_', ' ').toLowerCase()`. */
  function Spaced(name: string): string {
    seq(|name|, i requires 0 <= i < |name| => ToLower(if name[i] == '_' then ' ' else name[i]))
  }

  /** Position `i` of `t` holds a letter that is the first letter of its word: no letter occurs
      between the start of the text, or the last space before `i`, and `i`. */
  predicate StartsWord(t: string, i: int)
    requires 0 <= i < |t|
  {
    && IsAlphabetic(t[i])
    && forall j :: 0 <= j < i && IsAlphabetic(t[j]) ==> exists k :: j < k < i && t[k] == ' '
  }

  /** The character the formatted name holds at `i`: the lowered, spaced character, upper-cased
      exactly when it starts a word. */
  function Expected(t: string, i: int): char
    requires 0 <= i < |t|
  {
    if StartsWord(t, i) then ToUpper(t[i]) else t[i]
  }

  /** formatMaterialName: underscores become spaces, the text is lower-cased, and the first letter of
      every word is upper-cased. Characters that are neither letters nor spaces (digits) do not use up
      the pending capital. */
  method FormatMaterialName(m: Material) returns (r: string)
    ensures |r| == |m.name|
    ensures forall i :: 0 <= i < |r| ==> r[i] != '_'
    ensures forall i :: 0 <= i < |r| ==> r[i] == Expected(Spaced(m.name), i)
  {
    var name := Spaced(m.name);
    var formatted := "";
    var capitalizeNext := true;
    var i := 0;
    while i < |name|
      invariant 0 <= i <= |name|
      invariant |formatted| == i
      invariant forall k :: 0 <= k < i ==> formatted[k] == Expected(name, k)
      invariant capitalizeNext <==>
        forall j :: 0 <= j < i && IsAlphabetic(name[j]) ==> exists k :: j < k < i && name[k] == ' '
    {
      var c := name[i];
      if capitalizeNext && IsAlphabetic(c) {
        assert StartsWord(name, i);
        formatted := formatted + [ToUpper(c)];
        capitalizeNext := false;
      } else {
        assert !StartsWord(name, i);
        formatted := formatted + [c];
        if c == ' ' {
          capitalizeNext := true;
          assert forall j :: 0 <= j < i + 1 && IsAlphabetic(name[j]) ==> j < i && name[i] == ' ';
        }
      }
      i := i + 1;
    }
    r := formatted;
  }
}
