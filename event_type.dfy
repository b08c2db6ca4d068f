/**
 How the feed presents an activity's event type: the title text shown in the
 event header, and which detail block (if any) is rendered under it.
 */
module EventType {
  import opened JsString

  /** The event-type codes the component recognises. */
  const ExtractionCompleted: string := "extraction-completed"
  const AccessGranted: string := "access-granted"
  const AccessRevoked: string := "access-revoked"

  /** Their display titles. */
  const ExtractionTitle: string := "Rent Roll Extraction Complete"
  const GrantedTitle: string := "Database Access Granted"
  const RevokedTitle: string := "Database Access Revoked"

  /**
   The title of an event: three chained first-occurrence substitutions, in
   this order. A type holding none of the three codes is shown as it is.
   */
  function FormatEventType(eventType: string): (title: string)
    ensures (!Contains(eventType, ExtractionCompleted) && !Contains(eventType, AccessGranted)
             && !Contains(eventType, AccessRevoked)) ==> title == eventType
  {
    ReplaceFirst(
      ReplaceFirst(
        ReplaceFirst(eventType, ExtractionCompleted, ExtractionTitle),
        AccessGranted, GrantedTitle),
      AccessRevoked, RevokedTitle)
  }

  /**
   No two codes ever overlap in a string. Each window of offsets names a
   character of the later-starting code that the earlier one lacks there.
   */
  lemma {:induction false} CodesDisjoint()
    ensures Disjoint(ExtractionCompleted, AccessGranted) && Disjoint(AccessGranted, ExtractionCompleted)
    ensures Disjoint(ExtractionCompleted, AccessRevoked) && Disjoint(AccessRevoked, ExtractionCompleted)
    ensures Disjoint(AccessGranted, AccessRevoked) && Disjoint(AccessRevoked, AccessGranted)
  {
    ExtractionGrantedApart();
    ExtractionRevokedApart();
    GrantedRevokedApart();
  }

  lemma {:induction false} ExtractionGrantedApart()
    ensures Disjoint(ExtractionCompleted, AccessGranted) && Disjoint(AccessGranted, ExtractionCompleted)
  {
    var e, g := ExtractionCompleted, AccessGranted;
    NoStartWithin(e, g, 0, 5, 7);   // 'g'
    NoStartWithin(e, g, 5, 20, 0);  // 'a'
    NoStartWithin(g, e, 0, 13, 1);  // 'x'
    NoStartWithin(g, e, 13, 14, 0); // 'e'
  }

  lemma {:induction false} ExtractionRevokedApart()
    ensures Disjoint(ExtractionCompleted, AccessRevoked) && Disjoint(AccessRevoked, ExtractionCompleted)
  {
    var e, v := ExtractionCompleted, AccessRevoked;
    NoStartWithin(e, v, 0, 5, 9);   // 'v'
    NoStartWithin(e, v, 5, 20, 0);  // 'a'
    NoStartWithin(v, e, 0, 13, 1);  // 'x'
    NoStartWithin(v, e, 13, 14, 0); // 'e'
  }

  lemma {:induction false} GrantedRevokedApart()
    ensures Disjoint(AccessGranted, AccessRevoked) && Disjoint(AccessRevoked, AccessGranted)
  {
    var g, v := AccessGranted, AccessRevoked;
    NoStartWithin(g, v, 0, 5, 9);   // 'v'
    NoStartWithin(g, v, 5, 9, 0);   // 'a'
    NoStartWithin(g, v, 9, 10, 1);  // 'c'
    NoStartWithin(g, v, 10, 14, 0); // 'a'
    NoStartWithin(v, g, 0, 1, 7);   // 'g'
    NoStartWithin(v, g, 1, 14, 0);  // 'a'
  }

  /**
   A code never overlaps the title of a code substituted before it, neither
   inside the title nor across its edges: the titles start with a capital,
   which no code has, and lack the hyphen that every code has.
   */
  lemma {:induction false} NoTitleContainsLaterCode()
    ensures Disjoint(ExtractionTitle, AccessGranted)
    ensures Disjoint(ExtractionTitle, AccessRevoked)
    ensures Disjoint(GrantedTitle, AccessRevoked)
    ensures !Contains(ExtractionTitle, AccessGranted)
    ensures !Contains(ExtractionTitle, AccessRevoked)
    ensures !Contains(GrantedTitle, AccessRevoked)
  {
    ExtractionTitleApartFromGranted();
    ExtractionTitleApartFromRevoked();
    GrantedTitleApartFromRevoked();
    assert OccursAt(ExtractionTitle, ExtractionTitle, 0) && OccursAt(GrantedTitle, GrantedTitle, 0);
  }

  lemma {:induction false} ExtractionTitleApartFromGranted()
    ensures Disjoint(ExtractionTitle, AccessGranted)
  {
    var et, g := ExtractionTitle, AccessGranted;
    NoStartWithin(et, g, 0, 23, 6);   // '-'
    NoStartWithin(et, g, 23, 29, 0);  // 'a'
    NoStartWithin(g, et, 0, 14, 0);   // 'R'
  }

  lemma {:induction false} ExtractionTitleApartFromRevoked()
    ensures Disjoint(ExtractionTitle, AccessRevoked)
  {
    var et, v := ExtractionTitle, AccessRevoked;
    NoStartWithin(et, v, 0, 23, 6);   // '-'
    NoStartWithin(et, v, 23, 29, 0);  // 'a'
    NoStartWithin(v, et, 0, 14, 0);   // 'R'
  }

  lemma {:induction false} GrantedTitleApartFromRevoked()
    ensures Disjoint(GrantedTitle, AccessRevoked)
  {
    var gt, v := GrantedTitle, AccessRevoked;
    NoStartWithin(gt, v, 0, 17, 6);   // '-'
    NoStartWithin(gt, v, 17, 18, 0);  // 'a'
    NoStartWithin(gt, v, 18, 19, 1);  // 'c'
    NoStartWithin(gt, v, 19, 23, 0);  // 'a'
    assert gt[0] == 'D' && v[0..14] == v;
    NoStartWithin(v, gt, 0, 14, 0);   // 'D'
  }

  /**
   The substitutions do not cascade: a title put in by one substitution is never
   rewritten by a later one, so a type holding a single kind of code is rewritten
   by that code's substitution alone.
   */
  lemma {:induction false} SubstitutionsDoNotCascade(eventType: string)
    ensures !Contains(eventType, AccessGranted) && !Contains(eventType, AccessRevoked) ==>
              FormatEventType(eventType) == ReplaceFirst(eventType, ExtractionCompleted, ExtractionTitle)
    ensures !Contains(eventType, ExtractionCompleted) && !Contains(eventType, AccessRevoked) ==>
              FormatEventType(eventType) == ReplaceFirst(eventType, AccessGranted, GrantedTitle)
    ensures !Contains(eventType, ExtractionCompleted) && !Contains(eventType, AccessGranted) ==>
              FormatEventType(eventType) == ReplaceFirst(eventType, AccessRevoked, RevokedTitle)
  {
    NoTitleContainsLaterCode();
    var afterExtraction := ReplaceFirst(eventType, ExtractionCompleted, ExtractionTitle);
    NoNewOccurrence(eventType, ExtractionCompleted, ExtractionTitle, AccessGranted);
    NoNewOccurrence(eventType, ExtractionCompleted, ExtractionTitle, AccessRevoked);
    var afterGranted := ReplaceFirst(afterExtraction, AccessGranted, GrantedTitle);
    NoNewOccurrence(afterExtraction, AccessGranted, GrantedTitle, AccessRevoked);
  }

  /**
   Each substitution replaces one occurrence only: a code present twice, without
   overlap, anywhere in the type is still present in the title.
   */
  lemma {:induction false} RepeatedCodeKeepsACopy(eventType: string, code: string)
    requires code == ExtractionCompleted || code == AccessGranted || code == AccessRevoked
    requires TwoCopies(eventType, code)
    ensures Contains(FormatEventType(eventType), code)
  {
    CodesDisjoint();
    var afterExtraction := ReplaceFirst(eventType, ExtractionCompleted, ExtractionTitle);
    var afterGranted := ReplaceFirst(afterExtraction, AccessGranted, GrantedTitle);
    if code == ExtractionCompleted {
      TwoCopiesLeaveOne(eventType, code, ExtractionTitle);
      ReplaceKeeps(afterExtraction, AccessGranted, GrantedTitle, code);
      ReplaceKeeps(afterGranted, AccessRevoked, RevokedTitle, code);
    } else if code == AccessGranted {
      ReplaceKeepsTwo(eventType, ExtractionCompleted, ExtractionTitle, code);
      TwoCopiesLeaveOne(afterExtraction, code, GrantedTitle);
      ReplaceKeeps(afterGranted, AccessRevoked, RevokedTitle, code);
    } else {
      ReplaceKeepsTwo(eventType, ExtractionCompleted, ExtractionTitle, code);
      ReplaceKeepsTwo(afterExtraction, AccessGranted, GrantedTitle, code);
      TwoCopiesLeaveOne(afterGranted, code, RevokedTitle);
    }
  }

  /** The extraction code, followed by text holding neither later code, becomes its title. */
  lemma {:induction false} ExtractionTitled(rest: string)
    requires !Contains(rest, AccessGranted) && !Contains(rest, AccessRevoked)
    ensures FormatEventType(ExtractionCompleted + rest) == ExtractionTitle + rest
  {
    NoTitleContainsLaterCode();
    ReplaceLeading(ExtractionCompleted, rest, ExtractionTitle);
    var t := ExtractionTitle + rest;
    if Contains(t, AccessGranted) {
      ContainsInSuffix(ExtractionTitle, rest, AccessGranted);
    }
    if Contains(t, AccessRevoked) {
      ContainsInSuffix(ExtractionTitle, rest, AccessRevoked);
    }
  }

  /** The granted code, followed by text holding neither other code, becomes its title. */
  lemma {:induction false} GrantedTitled(rest: string)
    requires !Contains(rest, ExtractionCompleted) && !Contains(rest, AccessRevoked)
    ensures FormatEventType(AccessGranted + rest) == GrantedTitle + rest
  {
    CodesDisjoint();
    NoTitleContainsLaterCode();
    var s := AccessGranted + rest;
    if Contains(s, ExtractionCompleted) {
      ContainsInSuffix(AccessGranted, rest, ExtractionCompleted);
    }
    ReplaceLeading(AccessGranted, rest, GrantedTitle);
    var t := GrantedTitle + rest;
    if Contains(t, AccessRevoked) {
      ContainsInSuffix(GrantedTitle, rest, AccessRevoked);
    }
  }

  /** The revoked code, followed by text holding neither other code, becomes its title. */
  lemma {:induction false} RevokedTitled(rest: string)
    requires !Contains(rest, ExtractionCompleted) && !Contains(rest, AccessGranted)
    ensures FormatEventType(AccessRevoked + rest) == RevokedTitle + rest
  {
    CodesDisjoint();
    var s := AccessRevoked + rest;
    if Contains(s, ExtractionCompleted) {
      ContainsInSuffix(AccessRevoked, rest, ExtractionCompleted);
    }
    if Contains(s, AccessGranted) {
      ContainsInSuffix(AccessRevoked, rest, AccessGranted);
    }
    ReplaceLeading(AccessRevoked, rest, RevokedTitle);
  }

  /** The three known codes become their titles. */
  lemma {:induction false} KnownCodesGetTitles()
    ensures FormatEventType(ExtractionCompleted) == ExtractionTitle
    ensures FormatEventType(AccessGranted) == GrantedTitle
    ensures FormatEventType(AccessRevoked) == RevokedTitle
  {
    assert !Contains("", ExtractionCompleted) && !Contains("", AccessGranted) && !Contains("", AccessRevoked);
    assert ExtractionCompleted + "" == ExtractionCompleted && ExtractionTitle + "" == ExtractionTitle;
    assert AccessGranted + "" == AccessGranted && GrantedTitle + "" == GrantedTitle;
    assert AccessRevoked + "" == AccessRevoked && RevokedTitle + "" == RevokedTitle;
    ExtractionTitled("");
    GrantedTitled("");
    RevokedTitled("");
  }

  /** A code written twice in a row keeps its second copy verbatim after its title. */
  lemma {:induction false} SecondCopyKept()
    ensures FormatEventType(ExtractionCompleted + ExtractionCompleted) == ExtractionTitle + ExtractionCompleted
    ensures FormatEventType(AccessGranted + AccessGranted) == GrantedTitle + AccessGranted
    ensures FormatEventType(AccessRevoked + AccessRevoked) == RevokedTitle + AccessRevoked
  {
    CodesDisjoint();
    assert OccursAt(ExtractionCompleted, ExtractionCompleted, 0);
    assert OccursAt(AccessGranted, AccessGranted, 0);
    assert OccursAt(AccessRevoked, AccessRevoked, 0);
    assert !Contains(ExtractionCompleted, AccessGranted) && !Contains(ExtractionCompleted, AccessRevoked);
    assert !Contains(AccessGranted, ExtractionCompleted) && !Contains(AccessGranted, AccessRevoked);
    assert !Contains(AccessRevoked, ExtractionCompleted) && !Contains(AccessRevoked, AccessGranted);
    ExtractionTitled(ExtractionCompleted);
    GrantedTitled(AccessGranted);
    RevokedTitled(AccessRevoked);
  }

  /** The detail blocks of an activity card. */
  datatype DetailLayout = RentRollDetails | ViewDatabaseButton | NoDetails

  /** The guard of the rent-roll details block (property, dates, figures, buttons). */
  predicate ShowsRentRollDetails(eventType: string)
  {
    eventType == ExtractionCompleted
  }

  /** The guard of the "View Database" button. */
  predicate ShowsViewDatabase(eventType: string)
  {
    eventType == AccessGranted
  }

  /**
   The card's detail block as one choice. The two guards are tested
   independently in the markup; the choice is well defined because they never
   hold together, and it matches each guard in both directions.
   */
  function Layout(eventType: string): (layout: DetailLayout)
    ensures layout == RentRollDetails <==> ShowsRentRollDetails(eventType)
    ensures layout == ViewDatabaseButton <==> ShowsViewDatabase(eventType)
    ensures layout == NoDetails <==> !ShowsRentRollDetails(eventType) && !ShowsViewDatabase(eventType)
  {
    if eventType == ExtractionCompleted then RentRollDetails
    else if eventType == AccessGranted then ViewDatabaseButton
    else NoDetails
  }

  /** The two guarded blocks are mutually exclusive. */
  lemma GuardsExclusive(eventType: string)
    ensures !(ShowsRentRollDetails(eventType) && ShowsViewDatabase(eventType))
  {
    assert |ExtractionCompleted| != |AccessGranted|;
  }

  /** A revoked-access event, like every type other than the two guarded ones, gets no detail block. */
  lemma RevokedGetsNoDetails()
    ensures Layout(AccessRevoked) == NoDetails
  {
    assert AccessRevoked[7] != AccessGranted[7];
    assert |AccessRevoked| != |ExtractionCompleted|;
  }
}
