/** The filter predicate: cheap integer axes first, the message text last. */
module Filter {
  import opened Records

  /** The text axis; the compiled query is an uninterpreted predicate on the message. */
  datatype TextFilter = TextFilter(enabled: bool, negate: bool, emptyPattern: bool, matcher: string -> bool) {
    predicate Active() { enabled && !emptyPattern }
  }

  datatype FilterSet = FilterSet(
    priorityEnabled: bool, minPriority: Priority,
    loggerEnabled: bool, loggerIds: set<nat>,
    threadEnabled: bool, threadIds: set<nat>,
    timeEnabled: bool, startMs: int, endMs: int,
    text: TextFilter,
    absentFieldMatches: bool)
  {
    predicate AnyActive() {
      priorityEnabled || loggerEnabled || threadEnabled || timeEnabled || text.Active()
    }

    predicate AcceptsIntegerAxes(r: Record) {
      if priorityEnabled && (if r.priority == Unknown then !absentFieldMatches else r.priority.Level() < minPriority.Level())
      then false
      else if loggerEnabled && (if r.loggerId == 0 then !absentFieldMatches else r.loggerId !in loggerIds)
      then false
      else if threadEnabled && (if r.threadId == 0 then !absentFieldMatches else r.threadId !in threadIds)
      then false
      else if timeEnabled && (if r.timestamp == NO_TIMESTAMP then !absentFieldMatches
                              else r.timestamp < startMs || r.timestamp > endMs)
      then false
      else true
    }

    predicate AcceptsText(message: string) {
      if !text.Active() then true else text.matcher(message) != text.negate
    }

    /** The full predicate; `msg` decodes the message and is asked last. */
    predicate Accepts(r: Record, msg: Record -> string) {
      if !AcceptsIntegerAxes(r) then false
      else if !text.Active() then true
      else AcceptsText(msg(r))
    }
  }

  /** A record that carries none of the four integer fields passes every filter and
      triggers no highlight rule that keys on one of them. */
  lemma AbsentFields(f: FilterSet, r: Record)
    requires r.priority == Unknown && r.loggerId == 0 && r.threadId == 0 && r.timestamp == NO_TIMESTAMP
    ensures f.AcceptsIntegerAxes(r) <==>
            f.absentFieldMatches || !(f.priorityEnabled || f.loggerEnabled || f.threadEnabled || f.timeEnabled)
  {
  }

  /** AND across the axes, OR within one: a record is accepted iff every axis that is on
      accepts the field the record carries, or its absence. */
  lemma AcceptedMeans(f: FilterSet, r: Record, msg: Record -> string)
    ensures f.Accepts(r, msg) <==>
            && (f.priorityEnabled ==> if r.priority == Unknown then f.absentFieldMatches else f.minPriority.Level() <= r.priority.Level())
            && (f.loggerEnabled ==> if r.loggerId == 0 then f.absentFieldMatches else r.loggerId in f.loggerIds)
            && (f.threadEnabled ==> if r.threadId == 0 then f.absentFieldMatches else r.threadId in f.threadIds)
            && (f.timeEnabled ==> if r.timestamp == NO_TIMESTAMP then f.absentFieldMatches else f.startMs <= r.timestamp <= f.endMs)
            && (f.text.enabled && !f.text.emptyPattern ==> (f.text.negate <==> !f.text.matcher(msg(r))))
  {
  }

  /** The severities a minimum can be set to, least severe first. */
  const SEVERITIES: seq<Priority> := [Trace, Debug, Info, Warn, Error, Fatal]

  /** A minimum lets through itself and what is more severe; the level of an unparsed line is
      below them all. */
  lemma SeverityOrder(i: nat, j: nat)
    requires i < 6 && j < 6
    ensures |SEVERITIES| == 6 && (SEVERITIES[i].Level() <= SEVERITIES[j].Level() <==> i <= j)
    ensures Unknown.Level() < SEVERITIES[i].Level()
  {
    assert |SEVERITIES| == 6;
    assert forall k :: 0 <= k < 6 ==> SEVERITIES[k].Level() == k + 1;
  }

  /** A filter with every axis off, axis by axis. */
  predicate EveryAxisOff(f: FilterSet) {
    !f.priorityEnabled && !f.loggerEnabled && !f.threadEnabled && !f.timeEnabled && (!f.text.enabled || f.text.emptyPattern)
  }

  /** That is what the program calls inactive. */
  lemma OffIsInactive(f: FilterSet)
    ensures EveryAxisOff(f) <==> !f.AnyActive()
  {
  }

  lemma OffAcceptsAll(f: FilterSet, r: Record, msg: Record -> string)
    ensures EveryAxisOff(f) ==> f.Accepts(r, msg)
  {
  }
}
