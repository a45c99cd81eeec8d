/**
 * Name reconciliation in `/attendance-summary`: every name is filed under
 * its canonical key (lower-cased, then stripped of everything outside
 * `a-z0-9`). The roster maps each key to the first display form seen; a
 * date's bucket maps keys to the roster's display forms.
 */
module AttendanceNames {
  import opened Common
  import opened Text
  import opened OrderedMaps

  /** `norm(s)`: `(s ?? '').toString().trim()`. */
  function Norm(s: Option<string>): string {
    Trim(s.GetOr(""))
  }

  predicate IsCanonChar(c: char) {
    'a' <= c <= 'z' || '0' <= c <= '9'
  }

  /** `.replace(/[^a-z0-9]/g, '')`. */
  function KeepCanon(s: string): (r: string)
    ensures |r| <= |s|
    ensures forall i :: 0 <= i < |r| ==> IsCanonChar(r[i])
    ensures (forall i :: 0 <= i < |s| ==> IsCanonChar(s[i])) ==> r == s
  {
    if s == [] then []
    else (if IsCanonChar(s[0]) then [s[0]] else []) + KeepCanon(s[1..])
  }

  /** `canonical(s)`: `normLower(s).replace(/[^a-z0-9]/g, '')`. */
  function Canonical(s: string): (r: string)
    ensures forall i :: 0 <= i < |r| ==> IsCanonChar(r[i])
  {
    KeepCanon(Lower(Trim(s)))
  }

  lemma CanonCharFixed(c: char)
    requires IsCanonChar(c)
    ensures !IsJsSpace(c) && LowerChar(c) == c
  {
  }

  /** A canonical key is its own canonical key. */
  lemma CanonicalIdempotent(s: string)
    ensures Canonical(Canonical(s)) == Canonical(s)
  {
    var r := Canonical(s);
    assert Trim(r) == r by {
      if r != [] {
        CanonCharFixed(r[0]);
        CanonCharFixed(r[|r| - 1]);
      }
      TrimOfTrimmed(r);
    }
    assert Lower(r) == r by {
      forall i | 0 <= i < |r| ensures Lower(r)[i] == r[i] {
        CanonCharFixed(r[i]);
      }
    }
  }

  /** `emailLocal(s)`: the text before the first `@`, when that is not the first character. */
  function EmailLocal(s: string): (r: string)
    ensures IndexOf(s, '@') > 0 ==> r == s[..IndexOf(s, '@')] && '@' !in r && r != ""
    ensures IndexOf(s, '@') <= 0 ==> r == s
  {
    var at := IndexOf(s, '@');
    if at > 0 then s[..at] else s
  }

  /** How a present name is filed. */
  datatype Resolution =
    | Known(key: string)   // an existing roster entry, by local part or by the whole text
    | Fresh(key: string)   // a new roster entry under the name's own key
    | Dropped              // nothing of the name survives `canonical`

  /** The local part's key first, then the whole name's key, else a new entry if the key is not empty. */
  function Resolve(roster: OMap<string>, p: string): (r: Resolution)
    ensures r.Known? ==> Has(roster, r.key)
    ensures r.Known? ==> r.key == Canonical(EmailLocal(p)) || r.key == Canonical(p)
    ensures Has(roster, Canonical(EmailLocal(p))) ==> r == Known(Canonical(EmailLocal(p)))
    ensures r.Fresh? ==> r.key == Canonical(p) && r.key != "" && !Has(roster, r.key)
    ensures r.Dropped? ==> Canonical(p) == "" && !Has(roster, Canonical(EmailLocal(p))) && !Has(roster, "")
  {
    var c2 := Canonical(EmailLocal(p));
    var c1 := Canonical(p);
    if Has(roster, c2) then Known(c2)
    else if Has(roster, c1) then Known(c1)
    else if c1 != "" then Fresh(c1)
    else Dropped
  }

  /** The roster is keyed by the canonical form of each display name, never by the empty key. */
  ghost predicate RosterCanonical(roster: OMap<string>) {
    UniqueKeys(roster) &&
    forall k :: Has(roster, k) ==> k != "" && Canonical(Get(roster, k).value) == k
  }

  /** A bucket files each key under the display form the roster has for it. */
  ghost predicate BucketAgrees(bucket: OMap<string>, roster: OMap<string>) {
    UniqueKeys(bucket) &&
    forall k :: Has(bucket, k) ==> Has(roster, k) && Get(bucket, k) == Get(roster, k)
  }

  /** The roster only grows: no entry is removed or renamed. */
  ghost predicate Extends(r1: OMap<string>, r2: OMap<string>) {
    forall k :: Has(r1, k) ==> Get(r2, k) == Get(r1, k)
  }

  lemma ExtendsTrans(r1: OMap<string>, r2: OMap<string>, r3: OMap<string>)
    requires Extends(r1, r2) && Extends(r2, r3)
    ensures Extends(r1, r3)
  {
    forall k | Has(r1, k) ensures Get(r3, k) == Get(r1, k) {
      assert Get(r2, k).Some?;
    }
  }

  lemma AgreesExtended(bucket: OMap<string>, r1: OMap<string>, r2: OMap<string>)
    requires BucketAgrees(bucket, r1) && Extends(r1, r2)
    ensures BucketAgrees(bucket, r2)
  {
    forall k | Has(bucket, k) ensures Has(r2, k) && Get(bucket, k) == Get(r2, k) {
      assert Get(r2, k).Some?;
    }
  }

  /** One roster entry for attendee `a`: `if (c && !map.has(c)) map.set(c, a)`. */
  function AddBase(roster: OMap<string>, a: string): (r: OMap<string>)
    requires RosterCanonical(roster)
    ensures RosterCanonical(r) && Extends(roster, r)
    ensures forall k :: Has(r, k) <==> Has(roster, k) || (k == Canonical(a) && k != "")
  {
    var c := Canonical(a);
    if c != "" && !Has(roster, c) then Put(roster, c, a) else roster
  }

  /** Filing a known key keeps the bucket in agreement with the roster. */
  lemma KnownStep(roster: OMap<string>, bucket: OMap<string>, k: string)
    requires RosterCanonical(roster) && BucketAgrees(bucket, roster) && Has(roster, k)
    ensures BucketAgrees(Put(bucket, k, Get(roster, k).value), roster)
  {
  }

  /** Filing a new key adds it to the roster and the bucket alike. */
  lemma FreshStep(roster: OMap<string>, bucket: OMap<string>, p: string)
    requires RosterCanonical(roster) && BucketAgrees(bucket, roster)
    requires Canonical(p) != "" && !Has(roster, Canonical(p))
    ensures !Has(bucket, Canonical(p))
    ensures var r := Put(roster, Canonical(p), p);
      RosterCanonical(r) && Extends(roster, r) && BucketAgrees(Put(bucket, Canonical(p), p), r)
  {
    FreshRoster(roster, p);
    FreshBucket(roster, bucket, Canonical(p), p);
  }

  /** The roster gains the name under its key, and keeps every other entry. */
  lemma FreshRoster(roster: OMap<string>, p: string)
    requires RosterCanonical(roster)
    requires Canonical(p) != "" && !Has(roster, Canonical(p))
    ensures var r := Put(roster, Canonical(p), p);
      RosterCanonical(r) && Extends(roster, r)
  {
    var k := Canonical(p);
    var r := Put(roster, k, p);
    forall j | Has(r, j) ensures j != "" && Canonical(Get(r, j).value) == j {
      if j != k {
        assert Has(roster, j);
      }
    }
  }

  /** A key the roster lacks is not in the bucket either, and filing it in both keeps them agreeing. */
  lemma FreshBucket(roster: OMap<string>, bucket: OMap<string>, k: string, p: string)
    requires UniqueKeys(roster) && BucketAgrees(bucket, roster) && !Has(roster, k)
    ensures !Has(bucket, k)
    ensures BucketAgrees(Put(bucket, k, p), Put(roster, k, p))
  {
    var r := Put(roster, k, p);
    var b := Put(bucket, k, p);
    forall j | Has(b, j) ensures Has(r, j) && Get(b, j) == Get(r, j) {
      if j != k {
        assert Has(bucket, j);
      }
    }
  }

  /**
   * One present name into the roster and the date's bucket: a known key files
   * the roster's display form; an unknown non-empty key files the name itself
   * in both; a name with an empty key is dropped.
   */
  function AddName(roster: OMap<string>, bucket: OMap<string>, p0: Option<string>): (r: (OMap<string>, OMap<string>))
    requires RosterCanonical(roster) && BucketAgrees(bucket, roster)
    ensures RosterCanonical(r.0) && Extends(roster, r.0) && BucketAgrees(r.1, r.0)
    ensures forall k :: Has(bucket, k) ==> Has(r.1, k)
  {
    var p := Norm(p0);
    if p == "" then (roster, bucket)
    else
      match Resolve(roster, p)
      case Known(k) =>
        KnownStep(roster, bucket, k);
        (roster, Put(bucket, k, Get(roster, k).value))
      case Fresh(k) =>
        FreshStep(roster, bucket, p);
        var roster' := if Has(roster, k) then roster else Put(roster, k, p);
        var bucket' := if Has(bucket, k) then bucket else Put(bucket, k, p);
        (roster', bucket')
      case Dropped => (roster, bucket)
  }

  /** Where a present name ends up: under which key, if any. */
  lemma AddNameFiles(roster: OMap<string>, bucket: OMap<string>, p0: Option<string>)
    requires RosterCanonical(roster) && BucketAgrees(bucket, roster)
    ensures var p := Norm(p0); var r := AddName(roster, bucket, p0);
      p != "" && Has(roster, Canonical(EmailLocal(p))) ==>
        r.0 == roster && Get(r.1, Canonical(EmailLocal(p))) == Get(roster, Canonical(EmailLocal(p)))
    ensures var p := Norm(p0); var r := AddName(roster, bucket, p0);
      p != "" && !Has(roster, Canonical(EmailLocal(p))) && Canonical(p) != "" ==>
        Get(r.1, Canonical(p)) == Get(r.0, Canonical(p)) &&
        (Has(roster, Canonical(p)) ==> r.0 == roster) &&
        (!Has(roster, Canonical(p)) ==> Get(r.0, Canonical(p)) == Some(p))
    ensures var p := Norm(p0);
      p == "" || (!Has(roster, Canonical(EmailLocal(p))) && Canonical(p) == "") ==>
        AddName(roster, bucket, p0) == (roster, bucket)
  {
  }
}
