/** How the contact form's validator and the site-wide one relate. */
module FormsAgree {
  import opened Fields
  import ContactForms
  import Site

  /**
   * The contact form is the stricter of the two validators: what it accepts the site-wide
   * validator accepts, and they differ only on the message textarea, whose length only
   * the contact form checks.
   */
  lemma ContactStricterThanSite(f: Control)
    ensures ContactForms.FieldValid(f) ==> Site.FieldValid(f)
    ensures !ContactForms.IsMessageArea(f) ==> (ContactForms.FieldValid(f) <==> Site.FieldValid(f))
  {
  }
}
