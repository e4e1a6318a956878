/** The repository ships the same program twice, as cite_link_changer.cs and
    pdf_link_changer.cs. They differ in four places only; each difference is a
    predicate here, so the rest of the model is written once. */
module Variants {

  datatype Variant = CiteLinkChanger | PdfLinkChanger {

    /** cite_link_changer.cs cuts the delimited citation text at 400 characters. */
    predicate CapsLength() { CiteLinkChanger? }

    /** cite_link_changer.cs also strips search-reserved characters and "..". */
    predicate StripsReserved() { CiteLinkChanger? }

    /** cite_link_changer.cs skips an annotation without an action dictionary;
        pdf_link_changer.cs dereferences it unchecked. */
    predicate SkipsMissingAction() { CiteLinkChanger? }

    /** cite_link_changer.cs retries a file-name argument with ".pdf" appended. */
    predicate TriesPdfExtension() { CiteLinkChanger? }
  }
}
