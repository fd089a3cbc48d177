/** The collaboration-policy rule of ps0/ps0/src/rules/RulesOf6005.java: may a piece of code
    be used in an assignment? */
module RulesOf6005 {

  /** The rule as the source evaluates it: a required implementation rules out other people's
      code; your own code is always allowed; other code must be public, not course work from
      this class, and cited. The ensures gives the same rule as one closed formula. */
  function MayUseCodeInAssignment(writtenByYourself: bool, availableToOthers: bool,
                                  writtenAsCourseWork: bool, citingYourSource: bool,
                                  implementationRequired: bool): (r: bool)
    ensures r <==> writtenByYourself
                   || (!implementationRequired && availableToOthers
                       && !writtenAsCourseWork && citingYourSource)
  {
    if implementationRequired && !writtenByYourself then
      false
    else if writtenByYourself then
      true
    else
      availableToOthers && !writtenAsCourseWork && citingYourSource
  }

  /** The three consequences of the rule that the policy text states. */
  lemma PolicyConsequences(writtenByYourself: bool, availableToOthers: bool,
                           writtenAsCourseWork: bool, citingYourSource: bool,
                           implementationRequired: bool)
    ensures implementationRequired && !writtenByYourself ==>
              !MayUseCodeInAssignment(writtenByYourself, availableToOthers,
                                      writtenAsCourseWork, citingYourSource, implementationRequired)
    ensures writtenByYourself ==>
              MayUseCodeInAssignment(writtenByYourself, availableToOthers,
                                     writtenAsCourseWork, citingYourSource, implementationRequired)
    ensures !writtenByYourself && writtenAsCourseWork ==>
              !MayUseCodeInAssignment(writtenByYourself, availableToOthers,
                                      writtenAsCourseWork, citingYourSource, implementationRequired)
  {
  }
}
