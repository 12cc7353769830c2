/**
 * The per-endpoint copies of the catalogue: the duration map that
 * pages/api/slots.js and pages/api/book.js each spell out, and the name map
 * of pages/api/book.js. Both are object literals indexed by property key,
 * so `map[serviceId]` looks up the string spelling of the id.
 */
module ServiceMaps {
  import opened Wrappers
  import opened Text
  import opened Services

  /** `serviceMap[key]` / `durationMap[key]`: minutes for the keys "1".."8",
      an inherited member for the names of `Object.prototype`. */
  function DurationByKey(key: string): (minutes: Property<int>)
    ensures minutes.Own? <==> key in {"1", "2", "3", "4", "5", "6", "7", "8"}
    ensures minutes.Inherited? <==> key in InheritedKeys
    ensures minutes.Own? ==> minutes.value > 0
  {
    match key
    case "1" => Own(120)
    case "2" => Own(180)
    case "3" => Own(180)
    case "4" => Own(180)
    case "5" => Own(180)
    case "6" => Own(150)
    case "7" => Own(150)
    case "8" => Own(90)
    case _ => if key in InheritedKeys then Inherited else Missing
  }

  /** `serviceNames[key]` in pages/api/book.js. */
  function NameByKey(key: string): (name: Property<string>)
    ensures name.Own? <==> key in {"1", "2", "3", "4", "5", "6", "7", "8"}
    ensures name.Inherited? <==> key in InheritedKeys
    ensures name.Own? ==> name.value != ""
  {
    match key
    case "1" => Own("Retoque (Mantenimiento)")
    case "2" => Own("Reconstrucción Uñas Mordidas (Onicofagía)")
    case "3" => Own("Uñas Acrílicas")
    case "4" => Own("Uñas Polygel")
    case "5" => Own("Uñas Softgel")
    case "6" => Own("Kapping o Baño Polygel o Acrílico sobre uña natural")
    case "7" => Own("Reforzamiento Nivelación Rubber")
    case "8" => Own("Esmaltado Permanente")
    case _ => if key in InheritedKeys then Inherited else Missing
  }

  /** The keys of the maps are exactly the spellings of the catalogue ids. */
  lemma MapKeysAreCatalogueIds(key: string)
    ensures DurationByKey(key).Own? <==> exists n :: 1 <= n <= 8 && key == IntToString(n)
    ensures NameByKey(key) == Missing <==> DurationByKey(key) == Missing
    ensures NameByKey(key).Own? <==> DurationByKey(key).Own?
  {
    if DurationByKey(key).Own? {
      var n := DigitValue(key[0]);
      assert key == IntToString(n);
    }
    if exists n :: 1 <= n <= 8 && key == IntToString(n) {
      var n :| 1 <= n <= 8 && key == IntToString(n);
      assert key == [DigitChar(n)];
    }
  }

  /** For every catalogue id, both maps agree with the catalogue entry. */
  lemma MapsMatchCatalogue(n: int)
    requires 1 <= n <= 8
    ensures DurationByKey(IntToString(n)) == Own(Lookup(n).value.duration)
    ensures NameByKey(IntToString(n)) == Own(Lookup(n).value.name)
  {
    var s := Lookup(n).value;
    assert s == Catalogue[n - 1];
    assert s.name == NameOf(n) && s.duration == CatalogueDuration(n);
    KeyOfId(n);
  }

  /** The catalogue's durations, by id. */
  function CatalogueDuration(n: int): int
    requires 1 <= n <= 8
  {
    Catalogue[n - 1].duration
  }

  lemma KeyOfId(n: int)
    requires 1 <= n <= 8
    ensures DurationByKey(IntToString(n)) == Own(CatalogueDuration(n))
    ensures NameByKey(IntToString(n)) == Own(NameOf(n))
  {
    var key := IntToString(n);
    assert key == [DigitChar(n)];
    if n == 1 { assert key == "1"; }
    else if n == 2 { assert key == "2"; }
    else if n == 3 { assert key == "3"; }
    else if n == 4 { assert key == "4"; }
    else if n == 5 { assert key == "5"; }
    else if n == 6 { assert key == "6"; }
    else if n == 7 { assert key == "7"; }
    else { assert key == "8"; }
  }
}
