/** remove_duplicates.py: a Gmail-aware address normaliser and a
    first-seen deduplicator over the rows of one CSV file. */
module RemoveDuplicates {
  import opened Text
  import opened Csv

  /** The two domains whose local part is canonicalised. */
  predicate IsGmailDomain(domain: string) {
    domain == "gmail.com" || domain == "googlemail.com"
  }

  /** The lowercased, stripped text that normalize_email works on. */
  function Cleaned(email: string): (e: string)
    ensures NoUpper(e)
    ensures e == [] || (!IsSpace(e[0]) && !IsSpace(e[|e| - 1]))
    ensures e == Lower(Strip(email))
  {
    StripLowerCommute(email);
    NoUpperStrip(Lower(email));
    Strip(Lower(email))
  }

  /** The Gmail local part: the text before the first '+', dots deleted. */
  function GmailLocal(local: string): (l: string)
    ensures '+' !in l && '.' !in l
    ensures NoUpper(local) ==> NoUpper(l)
  {
    var head := Split(local, '+')[0];
    assert '+' !in head;
    if NoUpper(local) then
      NoUpperSplitHead(local, '+');
      NoUpperRemoveChar(head, '.');
      RemoveChar(head, '.')
    else
      RemoveChar(head, '.')
  }

  /** The steps of normalize_email after lowercasing and stripping. */
  function Canonicalize(e: string): (r: Option<string>)
    ensures r.None? <==> Count(e, '@') >= 2
    ensures '@' !in e ==> r == Some(e)
    ensures NoUpper(e) && r.Some? ==> NoUpper(r.value)
  {
    if e == [] || '@' !in e then Some(e)
    else
      var parts := Split(e, '@');
      if |parts| != 2 then None
      else
        var local := if IsGmailDomain(parts[1]) then GmailLocal(parts[0]) else parts[0];
        if NoUpper(e) then
          SplitOnce(e, '@');
          var at := IndexOf(e, '@');
          NoUpperSlice(e, 0, at);
          NoUpperSlice(e, at + 1, |e|);
          NoUpperConcat(local, "@");
          NoUpperConcat(local + "@", parts[1]);
          Some(local + "@" + parts[1])
        else
          Some(local + "@" + parts[1])
  }

  /** normalize_email. None stands for the ValueError raised by the
      two-way unpacking `local, domain = email.split("@")` when the address
      holds two or more '@'. */
  function NormalizeEmail(email: string): (r: Option<string>)
    ensures r.Some? ==> NoUpper(r.value)
    ensures r.None? <==> Count(Cleaned(email), '@') >= 2
    ensures '@' !in Cleaned(email) ==> r == Some(Cleaned(email))
  {
    Canonicalize(Cleaned(email))
  }

  /** The text before the only '@' of e. */
  function LocalPart(e: string): string
    requires Count(e, '@') == 1
  {
    e[..IndexOf(e, '@')]
  }

  /** The text after the only '@' of e. */
  function DomainPart(e: string): string
    requires Count(e, '@') == 1
  {
    e[IndexOf(e, '@') + 1..]
  }

  lemma CanonicalizeOnce(e: string)
    requires Count(e, '@') == 1
    ensures e == LocalPart(e) + "@" + DomainPart(e)
    ensures Canonicalize(e) == Some((if IsGmailDomain(DomainPart(e)) then GmailLocal(LocalPart(e)) else LocalPart(e)) + "@" + DomainPart(e))
  {
    SplitOnce(e, '@');
  }

  /** An address outside the two Gmail domains keeps its dots and '+' tags:
      only case and surrounding whitespace change. */
  lemma NormalizeOtherDomain(email: string)
    requires Count(Cleaned(email), '@') == 1
    requires !IsGmailDomain(DomainPart(Cleaned(email)))
    ensures NormalizeEmail(email) == Some(Cleaned(email))
  {
    CanonicalizeOnce(Cleaned(email));
  }

  lemma GmailLocalCut(local: string)
    ensures GmailLocal(local) == RemoveChar(BeforeFirst(local, '+'), '.')
  {
    SplitHead(local, '+');
  }

  lemma CanonicalizeGmail(e: string)
    requires Count(e, '@') == 1
    requires IsGmailDomain(DomainPart(e))
    ensures Canonicalize(e) == Some(RemoveChar(BeforeFirst(LocalPart(e), '+'), '.') + "@" + DomainPart(e))
  {
    CanonicalizeOnce(e);
    GmailLocalCut(LocalPart(e));
  }

  /** At a Gmail domain the local part becomes the text before its first
      '+' with every '.' removed, so it holds neither; the domain is kept. */
  lemma NormalizeGmail(email: string)
    requires Count(Cleaned(email), '@') == 1
    requires IsGmailDomain(DomainPart(Cleaned(email)))
    ensures NormalizeEmail(email) == Some(RemoveChar(BeforeFirst(LocalPart(Cleaned(email)), '+'), '.') + "@" + DomainPart(Cleaned(email)))
  {
    CanonicalizeGmail(Cleaned(email));
  }

  /** The domain comparison happens after lowercasing, so upper-case
      letters anywhere in the input make no difference. */
  lemma NormalizeIgnoresCase(email: string)
    ensures NormalizeEmail(Lower(email)) == NormalizeEmail(email)
  {
    LowerIdempotent(email);
  }

  /** An empty or all-whitespace value is a key like any other: "". */
  lemma NormalizeBlank(email: string)
    requires forall i :: 0 <= i < |email| ==> IsSpace(email[i])
    ensures NormalizeEmail(email) == Some("")
  {
    StripEmpty(Lower(email));
  }

  /** An address assembled from a local part and a domain, neither holding '@'. */
  lemma CanonicalizeJoin(a: string, b: string)
    requires '@' !in a && '@' !in b
    ensures Count(a + "@" + b, '@') == 1
    ensures LocalPart(a + "@" + b) == a && DomainPart(a + "@" + b) == b
    ensures Canonicalize(a + "@" + b) == Some((if IsGmailDomain(b) then GmailLocal(a) else a) + "@" + b)
  {
    IndexOfAfter(a, '@', b);
    CountConcat(a + "@", b, '@');
    CountConcat(a, "@", '@');
    assert (a + "@" + b)[|a| + 1..] == b;
    CanonicalizeOnce(a + "@" + b);
  }

  /** A Gmail result l@d, with l free of '@', '+' and '.', is its own canonical form. */
  lemma CanonicalizeGmailFixed(l: string, d: string)
    requires '@' !in l && '+' !in l && '.' !in l
    requires IsGmailDomain(d)
    ensures Canonicalize(l + "@" + d) == Some(l + "@" + d)
  {
    CanonicalizeJoin(l, d);
    GmailLocalCut(l);
    RemoveAbsentChar(l, '.');
  }

  /** A canonical form is its own canonical form. */
  lemma CanonicalizeIdempotent(e: string)
    requires Canonicalize(e).Some?
    ensures Canonicalize(Canonicalize(e).value) == Canonicalize(e)
  {
    if '@' in e {
      SplitOnce(e, '@');
      CanonicalizeOnce(e);
      var l, d := LocalPart(e), DomainPart(e);
      assert '@' !in l && '@' !in d;
      if IsGmailDomain(d) {
        var g := GmailLocal(l);
        GmailLocalCut(l);
        assert '@' !in g;
        CanonicalizeGmailFixed(g, d);
      } else {
        CanonicalizeJoin(l, d);
      }
    }
  }

  /** Canonicalising keeps the last character, or ends in '@', so a text
      without trailing whitespace gives a result without it. */
  lemma CanonicalizeEnd(e: string)
    requires Canonicalize(e).Some?
    requires e == [] || !IsSpace(e[|e| - 1])
    ensures var r := Canonicalize(e).value; r == [] || !IsSpace(r[|r| - 1])
  {
    if '@' in e {
      CanonicalizeOnce(e);
      var l, d := LocalPart(e), DomainPart(e);
      var x := if IsGmailDomain(d) then GmailLocal(l) else l;
      var r := x + "@" + d;
      assert Canonicalize(e).value == r;
      if d != [] {
        assert r[|r| - 1] == d[|d| - 1] == e[|e| - 1];
      } else {
        assert r[|r| - 1] == '@';
      }
    }
  }

  /** Normalising twice is normalising once, unless deleting the dots of a
      Gmail local part has moved whitespace to the front. */
  lemma NormalizeIdempotent(email: string)
    requires NormalizeEmail(email).Some?
    requires var r := NormalizeEmail(email).value; r == [] || !IsSpace(r[0])
    ensures NormalizeEmail(NormalizeEmail(email).value) == NormalizeEmail(email)
  {
    NormalizeCanonical(Cleaned(email));
  }

  /** The canonical form of cleaned text, when it does not start with
      whitespace, normalises to itself. */
  lemma NormalizeCanonical(e: string)
    requires NoUpper(e) && (e == [] || (!IsSpace(e[0]) && !IsSpace(e[|e| - 1])))
    requires Canonicalize(e).Some?
    requires var r := Canonicalize(e).value; r == [] || !IsSpace(r[0])
    requires NoUpper(Canonicalize(e).value)
    ensures NormalizeEmail(Canonicalize(e).value) == Canonicalize(e)
  {
    var r := Canonicalize(e).value;
    CanonicalizeEnd(e);
    CleanedNoop(r);
    CanonicalizeIdempotent(e);
  }

  /** Deleting the dots of ". " + l leaves the space in front. */
  lemma GmailLocalDotSpace(l: string)
    requires '+' !in l && '.' !in l
    ensures GmailLocal(". " + l) == " " + l
  {
    var s := ". " + l;
    GmailLocalCut(s);
    assert '+' !in s;
    assert s[1..] == " " + l && (" " + l)[1..] == l;
    RemoveAbsentChar(l, '.');
  }

  /** Lowercasing and stripping leave alone a string without upper-case
      letters or surrounding whitespace. */
  lemma CleanedNoop(s: string)
    requires NoUpper(s)
    requires s == [] || (!IsSpace(s[0]) && !IsSpace(s[|s| - 1]))
    ensures Cleaned(s) == s
  {
    LowerNoUpper(s);
    StripNoop(s);
  }

  /** One leading space is stripped. */
  lemma CleanedLeadingSpace(s: string)
    requires NoUpper(s) && s != [] && !IsSpace(s[0]) && !IsSpace(s[|s| - 1])
    ensures Cleaned(" " + s) == s
  {
    var t := " " + s;
    assert NoUpper(t) by {
      assert forall k :: 1 <= k < |t| ==> t[k] == s[k - 1];
    }
    LowerNoUpper(t);
    assert t[1..] == s;
    assert StripLeft(t) == s;
    StripNoop(s);
  }

  /** Both Gmail domains are lowercase, free of '@', and end in 'm'. */
  lemma GmailDomainPlain(d: string)
    requires IsGmailDomain(d)
    ensures NoUpper(d) && '@' !in d && d != [] && d[|d| - 1] == 'm'
  {
  }

  /** An address joined from a clean local part and a clean domain is
      normalised by its local part alone. */
  lemma NormalizeJoin(a: string, d: string)
    requires NoUpper(a) && NoUpper(d) && '@' !in a && '@' !in d
    requires a != [] && !IsSpace(a[0]) && d != [] && !IsSpace(d[|d| - 1])
    ensures NormalizeEmail(a + "@" + d) == Some((if IsGmailDomain(d) then GmailLocal(a) else a) + "@" + d)
  {
    var e := a + "@" + d;
    NoUpperConcat(a, "@");
    NoUpperConcat(a + "@", d);
    assert e[0] == a[0] && e[|e| - 1] == d[|d| - 1];
    CleanedNoop(e);
    CanonicalizeJoin(a, d);
  }

  /** At a Gmail domain the dot in front of ". " + l is deleted. */
  lemma NormalizeDotSpace(l: string, d: string)
    requires NoUpper(l) && '@' !in l && '+' !in l && '.' !in l
    requires IsGmailDomain(d)
    ensures NormalizeEmail(". " + l + "@" + d) == Some(" " + l + "@" + d)
  {
    var a := ". " + l;
    GmailDomainPlain(d);
    assert NoUpper(a) && '@' !in a by {
      assert forall k :: 2 <= k < |a| ==> a[k] == l[k - 2];
    }
    NormalizeJoin(a, d);
    GmailLocalDotSpace(l);
  }

  /** The space in front of a canonical Gmail address is stripped. */
  lemma NormalizeLeadingSpace(l: string, d: string)
    requires l != [] && !IsSpace(l[0]) && NoUpper(l)
    requires '@' !in l && '+' !in l && '.' !in l
    requires IsGmailDomain(d)
    ensures NormalizeEmail(" " + l + "@" + d) == Some(l + "@" + d)
  {
    var r := l + "@" + d;
    assert NoUpper(d) && !IsSpace(d[|d| - 1]);
    NoUpperConcat(l, "@");
    NoUpperConcat(l + "@", d);
    assert " " + l + "@" + d == " " + r;
    assert r[0] == l[0] && r[|r| - 1] == d[|d| - 1];
    CleanedLeadingSpace(r);
    CanonicalizeGmailFixed(l, d);
  }

  /** The precondition of NormalizeIdempotent is needed: at a Gmail domain
      a leading dot before a space is deleted, and a second pass strips the
      space that the first pass moved to the front. */
  lemma NormalizeNotIdempotent(l: string, d: string)
    requires l != [] && !IsSpace(l[0]) && NoUpper(l)
    requires '@' !in l && '+' !in l && '.' !in l
    requires IsGmailDomain(d)
    ensures NormalizeEmail(". " + l + "@" + d) == Some(" " + l + "@" + d)
    ensures NormalizeEmail(NormalizeEmail(". " + l + "@" + d).value) != NormalizeEmail(". " + l + "@" + d)
  {
    var once, twice := " " + l + "@" + d, l + "@" + d;
    NormalizeDotSpace(l, d);
    NormalizeLeadingSpace(l, d);
    assert |twice| < |once|;
    assert Some(twice) != Some(once);
  }

  /** The positions whose key does not occur earlier: the first occurrence
      of each key, in order. */
  function FirstIndices<K(==)>(keys: seq<K>): (idx: seq<nat>)
    ensures |idx| <= |keys|
    ensures forall j :: 0 <= j < |idx| ==> idx[j] < |keys|
  {
    if keys == [] then []
    else
      var n := |keys| - 1;
      FirstIndices(keys[..n]) + (if keys[n] in keys[..n] then [] else [n])
  }

  /** How many positions repeat a key seen earlier. */
  function DuplicateCount<K(==)>(keys: seq<K>): nat {
    if keys == [] then 0
    else
      var n := |keys| - 1;
      DuplicateCount(keys[..n]) + (if keys[n] in keys[..n] then 1 else 0)
  }

  /** The elements of xs at the positions idx, in that order. */
  function Pick<T>(xs: seq<T>, idx: seq<nat>): (r: seq<T>)
    requires forall j :: 0 <= j < |idx| ==> idx[j] < |xs|
    ensures |r| == |idx|
    ensures forall j :: 0 <= j < |idx| ==> r[j] == xs[idx[j]]
  {
    if idx == [] then [] else Pick(xs, idx[..|idx| - 1]) + [xs[idx[|idx| - 1]]]
  }

  /** A position is kept exactly when its key has not occurred before it. */
  lemma {:induction false} FirstIndicesMembers<K>(keys: seq<K>)
    ensures forall i :: i in FirstIndices(keys) <==> 0 <= i < |keys| && keys[i] !in keys[..i]
  {
    if keys != [] {
      var n := |keys| - 1;
      var prev := keys[..n];
      FirstIndicesMembers(prev);
      forall i | 0 <= i < n
        ensures prev[..i] == keys[..i] && prev[i] == keys[i]
      {
      }
    }
  }

  /** The kept positions are strictly increasing: the result is a subsequence. */
  lemma {:induction false} FirstIndicesIncreasing<K>(keys: seq<K>)
    ensures forall a, b :: 0 <= a < b < |FirstIndices(keys)| ==> FirstIndices(keys)[a] < FirstIndices(keys)[b]
  {
    if keys != [] {
      var n := |keys| - 1;
      var prev := FirstIndices(keys[..n]);
      FirstIndicesIncreasing(keys[..n]);
      var idx := FirstIndices(keys);
      assert idx == prev + (if keys[n] in keys[..n] then [] else [n]);
      forall a, b | 0 <= a < b < |idx|
        ensures idx[a] < idx[b]
      {
        assert idx[a] == prev[a];
        if b < |prev| {
          assert idx[b] == prev[b];
        } else {
          assert prev[a] < n;
        }
      }
    }
  }

  /** No two kept positions share a key. */
  lemma FirstIndicesDistinct<K>(keys: seq<K>)
    ensures forall a, b :: 0 <= a < b < |FirstIndices(keys)| ==> keys[FirstIndices(keys)[a]] != keys[FirstIndices(keys)[b]]
  {
    var idx := FirstIndices(keys);
    FirstIndicesMembers(keys);
    FirstIndicesIncreasing(keys);
    forall a, b | 0 <= a < b < |idx|
      ensures keys[idx[a]] != keys[idx[b]]
    {
      var i, j := idx[a], idx[b];
      assert j in FirstIndices(keys);
      assert keys[..j][i] == keys[i];
    }
  }

  /** The position where the key at i occurs first. */
  lemma {:induction false} FirstOccurrence<K>(keys: seq<K>, i: nat) returns (m: nat)
    requires i < |keys|
    ensures m <= i && keys[m] == keys[i] && keys[m] !in keys[..m]
    decreases i
  {
    if keys[i] in keys[..i] {
      var j :| 0 <= j < i && keys[..i][j] == keys[i];
      m := FirstOccurrence(keys, j);
    } else {
      m := i;
    }
  }

  /** Every key of the input is the key of some kept position. */
  lemma FirstIndicesCover<K>(keys: seq<K>)
    ensures forall i :: 0 <= i < |keys| ==> keys[i] in Pick(keys, FirstIndices(keys))
  {
    var idx := FirstIndices(keys);
    var kept := Pick(keys, idx);
    FirstIndicesMembers(keys);
    forall i | 0 <= i < |keys|
      ensures keys[i] in kept
    {
      var m := FirstOccurrence(keys, i);
      assert m in idx;
      var a :| 0 <= a < |idx| && idx[a] == m;
      assert kept[a] == keys[i];
    }
  }

  /** Kept rows and counted duplicates add up to the rows read. */
  lemma {:induction false} KeptPlusDuplicates<K>(keys: seq<K>)
    ensures |FirstIndices(keys)| + DuplicateCount(keys) == |keys|
  {
    if keys != [] {
      KeptPlusDuplicates(keys[..|keys| - 1]);
    }
  }

  /** One more key extends the kept positions by that position exactly
      when the key is new, and the duplicate count otherwise. */
  lemma DedupStep<K>(keys: seq<K>, i: nat)
    requires i < |keys|
    ensures keys[..i + 1] == keys[..i] + [keys[i]]
    ensures FirstIndices(keys[..i + 1]) == FirstIndices(keys[..i]) + (if keys[i] in keys[..i] then [] else [i])
    ensures DuplicateCount(keys[..i + 1]) == DuplicateCount(keys[..i]) + (if keys[i] in keys[..i] then 1 else 0)
  {
    assert keys[..i + 1][..i] == keys[..i];
  }

  /** The keys that did not fail, as a set: seen_normalized. */
  function SeenSet(keys: seq<Option<string>>): set<string> {
    if keys == [] then {}
    else
      var n := |keys| - 1;
      SeenSet(keys[..n]) + (if keys[n].Some? then {keys[n].value} else {})
  }

  lemma {:induction false} SeenSetMembers(keys: seq<Option<string>>, v: string)
    ensures v in SeenSet(keys) <==> Some(v) in keys
  {
    if keys != [] {
      var n := |keys| - 1;
      SeenSetMembers(keys[..n], v);
      assert keys == keys[..n] + [keys[n]];
    }
  }

  /** One more key that did not fail: it is new exactly when it is not in
      the seen set, and it joins the set. */
  lemma SeenStep(keys: seq<Option<string>>, i: nat)
    requires i < |keys| && keys[i].Some?
    ensures keys[i].value in SeenSet(keys[..i]) <==> keys[i] in keys[..i]
    ensures SeenSet(keys[..i + 1]) == SeenSet(keys[..i]) + {keys[i].value}
  {
    assert keys[..i + 1][..i] == keys[..i];
    SeenSetMembers(keys[..i], keys[i].value);
  }

  lemma PickAppend<T>(xs: seq<T>, idx: seq<nat>, j: nat)
    requires j < |xs|
    requires forall m :: 0 <= m < |idx| ==> idx[m] < |xs|
    ensures Pick(xs, idx + [j]) == Pick(xs, idx) + [xs[j]]
  {
    assert (idx + [j])[..|idx|] == idx;
  }

  /** The key of every row, in file order. */
  function Keys<R>(rows: seq<R>, key: R -> Option<string>): (keys: seq<Option<string>>)
    ensures |keys| == |rows|
    ensures forall i :: 0 <= i < |rows| ==> keys[i] == key(rows[i])
  {
    seq(|rows|, i requires 0 <= i < |rows| => key(rows[i]))
  }

  /** normalize_email(row[email_key]): None when it raises, on an address
      with two or more '@' or on the None that csv.DictReader stores for a
      cell missing from a short row (here: a column absent from the row). */
  function EmailKey(column: string): (key: Row -> Option<string>)
    ensures forall row :: key(row) == (if column in row then NormalizeEmail(row[column]) else None)
    ensures forall row :: key(row).None? <==> column !in row || Count(Cleaned(row[column]), '@') >= 2
    ensures forall row :: key(row).Some? ==> NoUpper(key(row).value)
  {
    row => if column in row then NormalizeEmail(row[column]) else None
  }

  datatype DedupOutcome<R> =
    | InputMissing                 // the input file does not exist
    | NoEmailColumn                // no header reads "email" in any case
    | Failed(row: nat)             // normalize_email raised on this row; nothing is written
    | Written(header: seq<string>, unique: seq<R>, duplicates: nat)

  /** The row at i is the first whose key failed. */
  ghost predicate FailsFirstAt<R>(rows: seq<R>, key: R -> Option<string>, i: nat) {
    var keys := Keys(rows, key);
    i < |rows| && keys[i] == None && None !in keys[..i]
  }

  /** No key failed, and the rows kept are the first row of every key, in
      input order, with the others counted as duplicates. */
  ghost predicate KeepsFirstRows<R>(headers: seq<string>, rows: seq<R>, key: R -> Option<string>,
                                    header: seq<string>, unique: seq<R>, duplicates: nat) {
    var keys := Keys(rows, key);
    var idx := FirstIndices(keys);
    && None !in keys
    && header == headers
    && unique == Pick(rows, idx)
    && |unique| + duplicates == |rows|
    && (forall a, b :: 0 <= a < b < |idx| ==> idx[a] < idx[b] && keys[idx[a]] != keys[idx[b]])
    && (forall i :: 0 <= i < |rows| ==> keys[i] in Pick(keys, idx))
  }

  /** The outcome of deduplicating rows by their keys: the first row whose
      key failed, or the first row of every key. */
  ghost predicate DedupSpec<R>(headers: seq<string>, rows: seq<R>, key: R -> Option<string>, out: DedupOutcome<R>) {
    match out
    case Failed(i) => FailsFirstAt(rows, key, i)
    case Written(header, unique, duplicates) => KeepsFirstRows(headers, rows, key, header, unique, duplicates)
    case _ => false
  }

  /** Stopping at the first row whose key failed meets the specification. */
  lemma FailedMeetsSpec<R>(headers: seq<string>, rows: seq<R>, key: R -> Option<string>, i: nat)
    requires i < |rows| && key(rows[i]) == None
    requires None !in Keys(rows, key)[..i]
    ensures DedupSpec(headers, rows, key, Failed(i))
  {
  }

  /** Keeping the first row of every key meets the specification when no key failed. */
  lemma WrittenMeetsSpec<R>(headers: seq<string>, rows: seq<R>, key: R -> Option<string>)
    requires None !in Keys(rows, key)
    ensures var keys := Keys(rows, key);
            DedupSpec(headers, rows, key, Written(headers, Pick(rows, FirstIndices(keys)), DuplicateCount(keys)))
  {
    var keys := Keys(rows, key);
    KeptPlusDuplicates(keys);
    FirstIndicesIncreasing(keys);
    FirstIndicesDistinct(keys);
    FirstIndicesCover(keys);
  }

  /** The first position whose key failed. */
  function FirstFailure(keys: seq<Option<string>>): (i: nat)
    requires None in keys
    ensures i < |keys| && keys[i] == None && None !in keys[..i]
  {
    if keys[0] == None then 0
    else
      var j := FirstFailure(keys[1..]);
      assert keys[..j + 1] == [keys[0]] + keys[1..][..j];
      j + 1
  }

  /** Only one position is the first whose key failed. */
  lemma FirstFailureUnique(keys: seq<Option<string>>, i: nat)
    requires i < |keys| && keys[i] == None && None !in keys[..i]
    ensures FirstFailure(keys) == i
  {
  }

  /** What deduplicating rows by their keys yields: the first row whose key
      failed, or else the first row of every key with the rest counted. */
  function Deduplicated<R>(headers: seq<string>, rows: seq<R>, key: R -> Option<string>): (out: DedupOutcome<R>)
    ensures DedupSpec(headers, rows, key, out)
  {
    var keys := Keys(rows, key);
    if None in keys then
      var i := FirstFailure(keys);
      FailedMeetsSpec(headers, rows, key, i);
      Failed(i)
    else
      WrittenMeetsSpec(headers, rows, key);
      Written(headers, Pick(rows, FirstIndices(keys)), DuplicateCount(keys))
  }

  /** The loop of deduplicate: a set of keys seen so far, the rows kept and
      a count of the rows dropped. */
  method DeduplicateRows<R>(headers: seq<string>, rows: seq<R>, key: R -> Option<string>)
    returns (out: DedupOutcome<R>)
    ensures out == Deduplicated(headers, rows, key)
  {
    ghost var keys := Keys(rows, key);
    var seen: set<string> := {};
    var unique: seq<R> := [];
    var duplicates := 0;
    var i := 0;
    while i < |rows|
      invariant 0 <= i <= |rows|
      invariant None !in keys[..i]
      invariant seen == SeenSet(keys[..i])
      invariant unique == Pick(rows, FirstIndices(keys[..i]))
      invariant duplicates == DuplicateCount(keys[..i])
    {
      var normalized := key(rows[i]);
      DedupStep(keys, i);
      if normalized.None? {
        FirstFailureUnique(keys, i);
        return Failed(i);
      }
      SeenStep(keys, i);
      if normalized.value !in seen {
        PickAppend(rows, FirstIndices(keys[..i]), i);
        seen := seen + {normalized.value};
        unique := unique + [rows[i]];
      } else {
        duplicates := duplicates + 1;
      }
      i := i + 1;
    }
    assert keys[..i] == keys;
    return Written(headers, unique, duplicates);
  }

  /** deduplicate: keep the first row of each normalised address. */
  method Deduplicate(inputExists: bool, headers: seq<string>, rows: seq<Row>) returns (out: DedupOutcome<Row>)
    ensures !inputExists ==> out == InputMissing
    ensures inputExists && EmailColumn(headers).None? ==> out == NoEmailColumn
    ensures inputExists && EmailColumn(headers).Some? ==>
              out == Deduplicated(headers, rows, EmailKey(headers[EmailColumn(headers).value]))
    ensures inputExists && EmailColumn(headers).Some? ==>
              DedupSpec(headers, rows, EmailKey(headers[EmailColumn(headers).value]), out)
  {
    if !inputExists {
      return InputMissing;
    }
    var col := EmailColumn(headers);
    if col.None? {
      return NoEmailColumn;
    }
    out := DeduplicateRows(headers, rows, EmailKey(headers[col.value]));
  }
}
