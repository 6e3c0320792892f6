/** What is reported about removed secrets (`redaction/src/to-findings.ts`), without the prose. */
module Findings {
  import opened Text
  import opened Detection
  import opened Splice
  import opened Assemble
  import opened Rendering

  const SECRET_CHECK_ID := "redaction.secret-in-source"

  datatype Evidence = Evidence(kind: SecretKind, path: string, segment: string, line: nat, column: nat, length: nat,
                               placeholder: string)

  datatype Finding = Finding(
    checkId: string, fingerprintParts: seq<string>, severity: Severity, location: string, evidence: Evidence,
    fixable: bool)

  function FindingOf(s: SecretRef): Finding {
    Finding(
      SECRET_CHECK_ID,
      [SECRET_CHECK_ID, s.path, KindName(s.kind), Decimal(s.line), Decimal(s.column)],
      s.severity,
      s.path + ":" + Decimal(s.line) + ":" + Decimal(s.column),
      Evidence(s.kind, s.path, s.name, s.line, s.column, s.length, s.placeholder),
      true)
  }

  function SecretsToFindings(secrets: seq<SecretRef>): seq<Finding> {
    seq(|secrets|, i requires 0 <= i < |secrets| => FindingOf(secrets[i]))
  }

  /** Length and first two letters tell the sixteen names apart. */
  lemma KindNamesDiffer(k: SecretKind, l: SecretKind)
    requires KindName(k) == KindName(l)
    ensures k == l
  {
    var a, b := KindName(k), KindName(l);
    assert |a| == |b| && a[0] == b[0] && a[1] == b[1];
  }

  /** Two secrets share a fingerprint exactly when they are of one kind at one path, line and column. */
  lemma FingerprintIsPlace(s: SecretRef, t: SecretRef)
    ensures FindingOf(s).fingerprintParts == FindingOf(t).fingerprintParts <==>
            s.path == t.path && s.kind == t.kind && s.line == t.line && s.column == t.column
  {
    hide KindName;
    var p, q := FindingOf(s).fingerprintParts, FindingOf(t).fingerprintParts;
    if p == q {
      assert p[1] == q[1] && p[2] == q[2] && p[3] == q[3] && p[4] == q[4];
      KindNamesDiffer(s.kind, t.kind);
      DecimalInjective(s.line, t.line);
      DecimalInjective(s.column, t.column);
    }
  }

  /** What is reported about match `i` of segment `k`, against the text and the match itself. */
  ghost predicate IsFindingOf(f: Finding, segment: Segment, m: SecretMatch, placeholder: string)
    requires m.start <= m.end
  {
    && f.checkId == "redaction.secret-in-source" && f.fixable
    && f.location == segment.path + ":" + Decimal(m.line) + ":" + Decimal(m.column)
    && (f.severity == Critical <==> m.kind in {PrivateKey, AwsAccessKeyId, StripeSecretKey})
    && (f.severity == Medium <==> m.kind == HighEntropyString)
    && f.evidence == Evidence(m.kind, segment.path, segment.name, m.line, m.column, m.end - m.start, placeholder)
  }

  lemma FindingOfReference(segment: Segment, m: SecretMatch, placeholder: string)
    requires m.start <= m.end && |m.value| == m.end - m.start
    ensures IsFindingOf(FindingOf(RefOf(segment, m, placeholder)), segment, m, placeholder)
  {
    hide Decimal, KindName;
  }

  /** Every match is reported, in document order, with the placeholder that stands for it. */
  lemma FindingsAreOfMatches(source: PromptSource, oracle: Oracle, k: nat, i: nat) returns (at: nat)
    requires OracleFits(source, oracle) && k < |source.segments|
    requires i < |MatchesIn(source.segments[k], oracle)|
    ensures var segment, findings := source.segments[k], SecretsToFindings(Secrets(source, oracle));
            var ms := MatchesIn(segment, oracle);
            && at == |Occurrences(source, oracle, k)| + i < |findings|
            && IsFindingOf(findings[at], segment, ms[i], Placeholders(ms, FinalGiven(source, oracle))[i])
  {
    hide MatchesIn, Occurrences, FinalGiven, Secrets, Records, FindingOf, RefOf, IsFindingOf, OracleFits, Spaced;
    Fits(source, oracle, k);
    SecretsAreComplete(source, oracle, k, i);
    at := |Occurrences(source, oracle, k)| + i;
    var ms := MatchesIn(source.segments[k], oracle);
    assert |ms[i].value| == ms[i].end - ms[i].start;
    FindingOfReference(source.segments[k], ms[i], FinalGiven(source, oracle)[ms[i].value]);
  }

  /** And where it is reported is where it stands in the segment. */
  lemma FindingsArePlaced(source: PromptSource, oracle: Oracle, k: nat, i: nat)
    requires OracleFits(source, oracle) && k < |source.segments|
    requires i < |MatchesIn(source.segments[k], oracle)|
    ensures var text, m := source.segments[k].content, MatchesIn(source.segments[k], oracle)[i];
            && m.start <= |text| && m.line == 1 + |set j | 0 <= j < m.start && text[j] == '\n'|
            && 1 <= m.column <= m.start + 1
            && (forall j | m.start - (m.column - 1) <= j < m.start :: text[j] != '\n')
            && (m.column <= m.start ==> text[m.start - m.column] == '\n')
  {
    hide Detect;
    var segment := source.segments[k];
    Fits(source, oracle, k);
    MatchesAre(segment, oracle);
    MatchIsPlaced(segment.content, oracle(segment.content), MatchesIn(segment, oracle)[i]);
  }
}
