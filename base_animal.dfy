/**
 * `BaseAnimal` (animal_logger/src/animals/base_animal.py): an immutable record of an
 * animal's name, age and taxonomy, with read-only accessors and a one-line rendering.
 */
module Animals {
  import opened Common

  /**
   * The record. Python's read-only properties are the datatype's destructors, so no
   * field can change after construction. `age` is the float the caller passed.
   */
  datatype Animal = Animal(
    name: string,
    age: real,
    species: string,
    subspecies: string,
    sex: Option<string>,
    genus: Option<string>,
    family: Option<string>,
    order: Option<string>,
    class_: Option<string>,
    phylum: Option<string>,
    kingdom: Option<string>,
    domain: Option<string>)

  /** `BaseAnimal.__init__`: the eight taxonomy arguments default to None. */
  function NewAnimal(name: string, age: real, species: string, subspecies: string,
                     sex: Option<string> := None, genus: Option<string> := None,
                     family: Option<string> := None, order: Option<string> := None,
                     class_: Option<string> := None, phylum: Option<string> := None,
                     kingdom: Option<string> := None, domain: Option<string> := None): (a: Animal)
    ensures a.name == name && a.age == age && a.sex == sex
    ensures a.species == species && a.subspecies == subspecies
    ensures a.genus == genus && a.family == family && a.order == order && a.class_ == class_
    ensures a.phylum == phylum && a.kingdom == kingdom && a.domain == domain
  {
    Animal(name, age, species, subspecies, sex, genus, family, order, class_, phylum, kingdom, domain)
  }

  /** Leaving out the optional arguments leaves every taxonomy field unset. */
  lemma DefaultsAreNone(name: string, age: real, species: string, subspecies: string)
    ensures var a := NewAnimal(name, age, species, subspecies);
            a.sex == None && a.genus == None && a.family == None && a.order == None &&
            a.class_ == None && a.phylum == None && a.kingdom == None && a.domain == None
  {
  }

  predicate IsLower(c: char) { 'a' <= c <= 'z' }
  predicate IsUpper(c: char) { 'A' <= c <= 'Z' }

  function ToUpper(c: char): char
  {
    if IsLower(c) then (c as int - 32) as char else c
  }

  function ToLower(c: char): char
  {
    if IsUpper(c) then (c as int + 32) as char else c
  }

  /** Every character lower-cased. */
  function LowerAll(s: string): (r: string)
    ensures |r| == |s| && forall i :: 0 <= i < |s| ==> r[i] == ToLower(s[i])
  {
    if s == [] then [] else [ToLower(s[0])] + LowerAll(s[1..])
  }

  /** `str.capitalize` on ASCII letters: the first character upper-cased, the rest lower-cased. */
  function Capitalize(s: string): (r: string)
    ensures |r| == |s|
    ensures |s| > 0 ==> r[0] == ToUpper(s[0])
    ensures forall i :: 0 < i < |s| ==> r[i] == ToLower(s[i])
  {
    if s == [] then [] else [ToUpper(s[0])] + LowerAll(s[1..])
  }

  /** Capitalizing twice changes nothing more. */
  lemma CapitalizeIdempotent(s: string)
    ensures Capitalize(Capitalize(s)) == Capitalize(s)
  {
    var c := Capitalize(s);
    var cc := Capitalize(c);
    assert |cc| == |c|;
    forall i | 0 <= i < |s|
      ensures cc[i] == c[i]
    {
      if i == 0 {
        assert cc[0] == ToUpper(ToUpper(s[0]));
      } else {
        assert cc[i] == ToLower(ToLower(s[i]));
      }
    }
  }

  /** The name's case is irrelevant to its capitalization. */
  lemma CapitalizeIgnoresCase(s: string)
    ensures Capitalize(LowerAll(s)) == Capitalize(s)
  {
    var l := Capitalize(LowerAll(s));
    var c := Capitalize(s);
    forall i | 0 <= i < |s|
      ensures l[i] == c[i]
    {
      if i == 0 {
        assert l[0] == ToUpper(ToLower(s[0]));
      } else {
        assert l[i] == ToLower(ToLower(s[i]));
      }
    }
  }

  /** How an f-string renders an optional field: the value, or "None". */
  function OptionText(o: Option<string>): string
  {
    match o
    case Some(v) => v
    case None => "None"
  }

  /**
   * `BaseAnimal.__str__`: `<Name> (<age>) - <sex> <species> (<subspecies>)`.
   * `showAge` is Python's rendering of the float age.
   */
  function ToString(a: Animal, showAge: real -> string): string
  {
    Capitalize(a.name) + " (" + showAge(a.age) + ") - " + OptionText(a.sex) + " " + a.species + " (" + a.subspecies + ")"
  }

  /** The rendering starts with the capitalized name and ends with the species and the subspecies, verbatim. */
  lemma ToStringShape(a: Animal, showAge: real -> string)
    ensures var r := ToString(a, showAge);
            && |r| >= |a.name| + 2 + |a.subspecies| + 2 + |a.species| + 1
            && r[..|a.name|] == Capitalize(a.name)
            && r[|r| - |a.subspecies| - 1..] == a.subspecies + ")"
            && r[|r| - |a.subspecies| - 3 - |a.species|..|r| - |a.subspecies| - 3] == a.species
  {
    var name := Capitalize(a.name);
    var tail := a.species + " (" + a.subspecies + ")";
    var r := ToString(a, showAge);
    assert r == (name + " (" + showAge(a.age) + ") - " + OptionText(a.sex) + " ") + tail;
  }

  /** The rendering depends only on name, age, sex, species and subspecies: the other taxonomy fields never appear. */
  lemma ToStringIgnoresTaxonomy(a: Animal, b: Animal, showAge: real -> string)
    requires a.name == b.name && a.age == b.age && a.sex == b.sex
    requires a.species == b.species && a.subspecies == b.subspecies
    ensures ToString(a, showAge) == ToString(b, showAge)
  {
  }

  /** Only the name is case-transformed: renaming "REX" to "rex" renders the same. */
  lemma ToStringIgnoresNameCase(a: Animal, showAge: real -> string)
    ensures ToString(a.(name := LowerAll(a.name)), showAge) == ToString(a, showAge)
  {
    CapitalizeIgnoresCase(a.name);
  }

  /** `"rEX".capitalize()` is "Rex". */
  lemma CapitalizeExample()
    ensures Capitalize("rEX") == "Rex"
  {
    assert LowerAll("X") == "x" by {
      assert LowerAll("X") == [ToLower('X')] + LowerAll([]);
    }
    assert LowerAll("EX") == "ex" by {
      assert "EX"[1..] == "X";
    }
    assert "rEX"[1..] == "EX";
  }

  /** The rendering of a dog with no sex given. */
  lemma ToStringExample(showAge: real -> string)
    requires showAge(3.5) == "3.5"
    ensures ToString(NewAnimal("rEX", 3.5, "Canis lupus", "familiaris"), showAge)
            == "Rex (3.5) - None Canis lupus (familiaris)"
  {
    var a := NewAnimal("rEX", 3.5, "Canis lupus", "familiaris");
    CapitalizeExample();
  }
}
