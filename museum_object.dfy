/**
 * The catalogue record (class MuseumObject) and the three similarity
 * comparators that score a pair of records.
 */
module MuseumObjects {

  /** The accession number that identifies a record. */
  type Id = string

  /** A catalogue record; `date` is the signed year (negative before the current era). */
  datatype MuseumObject = MuseumObject(objectId: Id, name: string, artist: string, country: string, date: real)
  {
    /** operator< : orders records by accession number alone. */
    predicate Less(rhs: MuseumObject) {
      StringLess(objectId, rhs.objectId)
    }

    /** operator== : compares accession numbers alone. */
    predicate Equals(rhs: MuseumObject) {
      objectId == rhs.objectId
    }

    /** operator!= */
    predicate NotEquals(rhs: MuseumObject) {
      objectId != rhs.objectId
    }

    /** isInvalid() : the sentinel record has an empty accession number. */
    predicate IsInvalid() {
      |objectId| == 0
    }
  }

  /** The default constructor: every string empty and the date 0. */
  function DefaultObject(): (o: MuseumObject)
    ensures o.IsInvalid() && o.date == 0.0
    ensures o.name == "" && o.artist == "" && o.country == ""
  {
    MuseumObject("", "", "", "", 0.0)
  }

  /** std::string's operator< : lexicographic order on characters. */
  predicate StringLess(a: string, b: string) {
    if |a| == 0 then |b| > 0
    else if |b| == 0 then false
    else if a[0] != b[0] then a[0] < b[0]
    else StringLess(a[1..], b[1..])
  }

  lemma {:induction false} StringLessIrreflexive(a: string)
    ensures !StringLess(a, a)
  {
    if |a| > 0 {
      StringLessIrreflexive(a[1..]);
    }
  }

  lemma {:induction false} StringLessTransitive(a: string, b: string, c: string)
    requires StringLess(a, b) && StringLess(b, c)
    ensures StringLess(a, c)
  {
    if |a| > 0 && |b| > 0 && |c| > 0 && a[0] == b[0] && b[0] == c[0] {
      StringLessTransitive(a[1..], b[1..], c[1..]);
    }
  }

  /** Exactly one of a < b, a == b, b < a holds. */
  lemma {:induction false} StringLessTrichotomy(a: string, b: string)
    ensures StringLess(a, b) || a == b || StringLess(b, a)
    ensures !(StringLess(a, b) && StringLess(b, a))
    ensures a == b ==> !StringLess(a, b)
  {
    if |a| > 0 && |b| > 0 && a[0] == b[0] {
      StringLessTrichotomy(a[1..], b[1..]);
      if a[1..] == b[1..] {
        assert a == [a[0]] + a[1..] && b == [b[0]] + b[1..];
      }
    } else if a == b {
      StringLessIrreflexive(a);
    }
  }

  /**
   * Two records are equivalent under operator< (neither precedes the other)
   * exactly when their accession numbers agree, so an ordered map keyed by
   * records is a map keyed by accession numbers.
   */
  lemma OrderEquivalenceIsIdEquality(a: MuseumObject, b: MuseumObject)
    ensures (!a.Less(b) && !b.Less(a)) <==> a.objectId == b.objectId
    ensures (!a.Less(b) && !b.Less(a)) <==> a.Equals(b)
  {
    StringLessTrichotomy(a.objectId, b.objectId);
  }

  /** operator< is a strict order. */
  lemma LessIsStrictOrder(a: MuseumObject, b: MuseumObject, c: MuseumObject)
    ensures !a.Less(a)
    ensures a.Less(b) ==> !b.Less(a)
    ensures a.Less(b) && b.Less(c) ==> a.Less(c)
  {
    StringLessIrreflexive(a.objectId);
    StringLessTrichotomy(a.objectId, b.objectId);
    if a.Less(b) && b.Less(c) {
      StringLessTransitive(a.objectId, b.objectId, c.objectId);
    }
  }

  /** ==, != and < look at the accession number only; != is the negation of ==. */
  lemma ComparisonIgnoresAttributes(a: MuseumObject, b: MuseumObject, name: string, artist: string, country: string, date: real)
    ensures a.NotEquals(b) <==> !a.Equals(b)
    ensures var a' := a.(name := name, artist := artist, country := country, date := date);
      && a'.Equals(a)
      && (a'.Equals(b) <==> a.Equals(b))
      && (a'.Less(b) <==> a.Less(b))
      && (b.Less(a') <==> b.Less(a))
  {
  }

  /** isInvalid() holds exactly for the empty accession number. */
  lemma InvalidIffEmptyId(o: MuseumObject)
    ensures o.IsInvalid() <==> o.objectId == ""
  {
  }

  /** MuseumObjectArtistComparator: 1 on an exact artist match, else 0. */
  function ArtistScore(a: MuseumObject, b: MuseumObject): (r: real)
    ensures r == 0.0 || r == 1.0
    ensures r == 1.0 <==> a.artist == b.artist
  {
    if a.artist == b.artist then 1.0 else 0.0
  }

  /** MuseumObjectLocationComparator: 1 on an exact country match, else 0. */
  function LocationScore(a: MuseumObject, b: MuseumObject): (r: real)
    ensures r == 0.0 || r == 1.0
    ensures r == 1.0 <==> a.country == b.country
  {
    if a.country == b.country then 1.0 else 0.0
  }

  function Abs(x: real): real {
    if x < 0.0 then -x else x
  }

  /** MuseumObjectDateComparator::operator() : the distance between the two dates. */
  function DateScore(a: MuseumObject, b: MuseumObject): (r: real)
    ensures r >= 0.0
    ensures r == 0.0 <==> a.date == b.date
    ensures r == a.date - b.date || r == b.date - a.date
  {
    Abs(a.date - b.date)
  }

  /** All three comparators are symmetric. */
  lemma ScoresAreSymmetric(a: MuseumObject, b: MuseumObject)
    ensures ArtistScore(a, b) == ArtistScore(b, a)
    ensures LocationScore(a, b) == LocationScore(b, a)
    ensures DateScore(a, b) == DateScore(b, a)
  {
  }

  /** The date distance obeys the triangle inequality. */
  lemma DateScoreTriangle(a: MuseumObject, b: MuseumObject, c: MuseumObject)
    ensures DateScore(a, c) <= DateScore(a, b) + DateScore(b, c)
  {
  }
}
