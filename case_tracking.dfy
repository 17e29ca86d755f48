/** The case list of src/components/CaseTracking.tsx: the search box with
    its status and priority selectors, and the colours of the status and
    priority badges. The selectors hold strings: 'all' or the name of a
    status or priority. */
module CaseTracking {
  import opened Text
  import opened Seqs
  import opened Types

  /** The title, the id or the reporter contains the query without regard to
      case, and each selector is 'all' or names the case's value. */
  function CaseMatches(query: string, statusFilter: string, priorityFilter: string): Case -> bool {
    (c: Case) =>
      && (MentionsIgnoringCase(c.title, query) || MentionsIgnoringCase(c.id, query)
          || MentionsIgnoringCase(c.reportedBy, query))
      && (statusFilter == "all" || CaseStatusName(c.status) == statusFilter)
      && (priorityFilter == "all" || PriorityName(c.priority) == priorityFilter)
  }

  function FilteredCases(cases: seq<Case>, query: string, statusFilter: string, priorityFilter: string): (r: seq<Case>)
    ensures |r| <= |cases|
    ensures forall i :: 0 <= i < |r| ==> r[i] in cases && CaseMatches(query, statusFilter, priorityFilter)(r[i])
  {
    Filter(cases, CaseMatches(query, statusFilter, priorityFilter))
  }

  /** The listing keeps the order of the cases and shows exactly the cases
      that pass the search box and both selectors; with an empty query and
      both selectors on 'all' it shows every case. */
  lemma FilteredCasesEffect(cases: seq<Case>, query: string, statusFilter: string, priorityFilter: string)
    ensures IsSubsequence(FilteredCases(cases, query, statusFilter, priorityFilter), cases)
    ensures forall i :: 0 <= i < |cases| ==>
      (cases[i] in FilteredCases(cases, query, statusFilter, priorityFilter) <==>
        && (MentionsIgnoringCase(cases[i].title, query) || MentionsIgnoringCase(cases[i].id, query)
            || MentionsIgnoringCase(cases[i].reportedBy, query))
        && (statusFilter == "all" || CaseStatusName(cases[i].status) == statusFilter)
        && (priorityFilter == "all" || PriorityName(cases[i].priority) == priorityFilter))
    ensures query == "" && statusFilter == "all" && priorityFilter == "all" ==>
      FilteredCases(cases, query, statusFilter, priorityFilter) == cases
  {
    var p := CaseMatches(query, statusFilter, priorityFilter);
    FilterIsSubsequence(cases, p);
    forall i | 0 <= i < |cases| && cases[i] in FilteredCases(cases, query, statusFilter, priorityFilter)
      ensures p(cases[i])
    {
      FilterMember(cases, p, cases[i]);
    }
    if query == "" && statusFilter == "all" && priorityFilter == "all" {
      forall i | 0 <= i < |cases| ensures p(cases[i]) {
        ContainsEmpty(ToLower(cases[i].title));
      }
      FilterAll(cases, p);
    }
  }

  /** Choosing a status name in the selector shows only cases with that
      status, whatever the other boxes say. */
  lemma StatusSelectorSelects(cases: seq<Case>, query: string, status: CaseStatus, priorityFilter: string)
    ensures forall i :: 0 <= i < |FilteredCases(cases, query, CaseStatusName(status), priorityFilter)| ==>
      FilteredCases(cases, query, CaseStatusName(status), priorityFilter)[i].status == status
  {
    var r := FilteredCases(cases, query, CaseStatusName(status), priorityFilter);
    forall i | 0 <= i < |r| ensures r[i].status == status {
      CaseStatusNameInjective(r[i].status, status);
    }
  }

  lemma CaseStatusNameInjective(a: CaseStatus, b: CaseStatus)
    ensures CaseStatusName(a) == CaseStatusName(b) <==> a == b
    ensures CaseStatusName(a) != "all"
  {
  }

  /** Choosing a priority name shows only cases with that priority. */
  lemma PrioritySelectorSelects(cases: seq<Case>, query: string, statusFilter: string, priority: Priority)
    ensures forall i :: 0 <= i < |FilteredCases(cases, query, statusFilter, PriorityName(priority))| ==>
      FilteredCases(cases, query, statusFilter, PriorityName(priority))[i].priority == priority
  {
    var r := FilteredCases(cases, query, statusFilter, PriorityName(priority));
    forall i | 0 <= i < |r| ensures r[i].priority == priority {
      PriorityNameInjective(r[i].priority, priority);
    }
  }

  lemma PriorityNameInjective(a: Priority, b: Priority)
    ensures PriorityName(a) == PriorityName(b) <==> a == b
    ensures PriorityName(a) != "all"
  {
  }

  /** `getStatusColor`. */
  function StatusColor(status: string): string {
    if status == "open" then "destructive"
    else if status == "investigating" then "secondary"
    else if status == "closed" then "default"
    else "outline"
  }

  /** `getPriorityColor`. */
  function PriorityColor(priority: string): string {
    if priority == "critical" || priority == "high" then "destructive"
    else if priority == "medium" then "default"
    else if priority == "low" then "secondary"
    else "outline"
  }

  /** Every status has its own colour and none gets the fallback. */
  lemma StatusColorsDistinct(a: CaseStatus, b: CaseStatus)
    ensures StatusColor(CaseStatusName(a)) == StatusColor(CaseStatusName(b)) <==> a == b
    ensures StatusColor(CaseStatusName(a)) != "outline"
  {
  }

  /** A priority is shown in red exactly when it is high or critical; low and
      medium have colours of their own, and none gets the fallback. */
  lemma PriorityColors(p: Priority)
    ensures PriorityColor(PriorityName(p)) == "destructive" <==> p == High || p == Critical
    ensures PriorityColor(PriorityName(p)) == "default" <==> p == Medium
    ensures PriorityColor(PriorityName(p)) == "secondary" <==> p == Low
  {
  }
}
